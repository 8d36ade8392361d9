/** The store's operations, each a sequence of the protocol's atomic effects (src/store.cpp). */
module RegistryStore {
  import opened Rules
  import opened Runs
  import opened Sorting
  import opened Store

  datatype Error =
    | ImmutableGeneration | Cancelled | IoError | LockContention | CounterOverflow | NotFound
    | StaleGeneration | StaleEpoch | StaleIncarnation
    | GenerationLimitReached | CompileFailed | LimitExceeded | CorruptPersistence

  datatype Result<+T> = Ok(value: T) | Err(error: Error)

  /** Which file operations of one call succeed. */
  datatype Io = Io(readMeta: bool, list: bool, writeFile: bool, writeMeta: bool, removable: nat -> bool, readable: nat -> bool)

  /** The shared directory; the ghost fields record how it came to be. */
  class Directory<B(!new), D(!new)> {
    const env: Env<B, D>
    var meta: Meta<D>
    var files: map<nat, File<B, D>>
    var locked: bool
    ghost var writer: Writer<B, D>
    ghost var history: seq<Doc<B, D>>
    ghost var log: seq<Action<B, D>>

    ghost function World(): World<B, D>
      reads this
    {
      Store.World(meta, files, writer, history)
    }

    /** The contents are what the logged run of the protocol leaves. */
    ghost predicate Valid()
      reads this
    {
      && IsRun(Protocol(env), Initial(env), log)
      && After(Protocol(env), Initial(env), log) == World()
      && (locked <==> writer != NoWriter)
    }

    constructor (env: Env<B, D>)
      ensures Valid() && this.env == env && log == []
    {
      this.env := env;
      meta, files, locked := Meta(0, env.noDigest, 0, 0, 0), map[], false;
      writer, history, log := NoWriter, [], [];
    }

    lemma ValidIsSound()
      requires Valid()
      ensures Sound(env, World())
    {
      EveryRunIsSound(env, log);
    }

    ghost method Record(before: World<B, D>, a: Action<B, D>)
      requires IsRun(Protocol(env), Initial(env), log)
      requires After(Protocol(env), Initial(env), log) == before
      requires Enabled(env, before, a) && World() == Do(env, before, a)
      requires locked <==> writer != NoWriter
      modifies `log
      ensures Valid() && log == old(log) + [a]
    {
      RunGrows(Protocol(env), Initial(env), log, a);
      log := log + [a];
    }

    method TryLock() returns (ok: bool)
      requires Valid()
      modifies this
      ensures Valid()
      ensures ok == !old(locked)
      ensures log == old(log) + if ok then [Acquire] else []
      ensures World() == if ok then Do(env, old(World()), Acquire) else old(World())
    {
      if locked { return false; }
      ghost var before := World();
      locked, writer := true, Opening;
      Record(before, Acquire);
      return true;
    }

    method Unlock()
      requires Valid()
      modifies this
      ensures Valid()
      ensures log == old(log) + [Action.Stop]
      ensures World() == Do(env, old(World()), Action.Stop)
    {
      ghost var before := World();
      locked, writer := false, NoWriter;
      Record(before, Action.Stop);
    }

    /** Write, flush, rename: the file changes whole or not at all. */
    method WriteMeta(updated: Meta<D>, works: bool, ghost a: Action<B, D>)
      requires Valid()
      requires a == CommitMeta || a == BumpMeta
      requires Enabled(env, World(), a) && updated == Do(env, World(), a).meta
      modifies this
      ensures Valid()
      ensures log == old(log) + if works then [a] else []
      ensures World() == if works then Do(env, old(World()), a) else old(World())
    {
      if works {
        ghost var before := World();
        meta := updated;
        history := Do(env, before, a).history;
        writer := Idle;
        Record(before, a);
      }
    }

    method WriteGeneration(doc: Doc<B, D>, works: bool)
      requires Valid()
      requires Enabled(env, World(), WriteFile(doc))
      modifies this
      ensures Valid()
      ensures log == old(log) + if works then [WriteFile(doc)] else []
      ensures World() == if works then Do(env, old(World()), WriteFile(doc)) else old(World())
    {
      if works {
        ghost var before := World();
        files, writer := files[doc.generation := Intact(doc)], Written(doc);
        Record(before, WriteFile(doc));
      }
    }

    ghost method GiveUp()
      requires Valid() && writer.Written?
      modifies this
      ensures Valid()
      ensures log == old(log) + [Abandon]
      ensures World() == Do(env, old(World()), Abandon)
    {
      ghost var before := World();
      writer := Idle;
      Record(before, Abandon);
    }

    method Remove(n: nat, works: bool)
      requires Valid() && writer == Idle && n != meta.generation
      modifies this
      ensures Valid()
      ensures log == old(log) + if works then [RemoveFile(n)] else []
      ensures World() == if works then Do(env, old(World()), RemoveFile(n)) else old(World())
    {
      if works {
        ghost var before := World();
        files := files - {n};
        Record(before, RemoveFile(n));
      }
    }

    /** The numbers of the generation files, ascending. */
    method List() returns (numbers: seq<nat>)
      ensures IsListing(files.Keys, numbers)
    {
      numbers := [];
      var left := files.Keys;
      while left != {}
        invariant left <= files.Keys
        invariant forall n :: n in numbers <==> n in files && n !in left
        invariant |numbers| + |left| == |files.Keys|
        invariant Apart(numbers)
        decreases |left|
      {
        var n :| n in left;
        left := left - {n};
        numbers := numbers + [n];
      }
      SortOfApart(numbers);
      numbers := Sort(Ascending, numbers);
      assert |files| == |files.Keys|;
    }
  }

  ghost predicate IsListing(keys: set<nat>, numbers: seq<nat>) {
    && Rising(numbers)
    && (forall n :: n in numbers <==> n in keys)
    && |numbers| == |keys|
  }

  predicate Ascending(a: nat, b: nat) {
    a < b
  }

  ghost predicate Rising(s: seq<nat>) {
    forall i, j :: 0 <= i < j < |s| ==> s[i] < s[j]
  }

  ghost predicate Apart(s: seq<nat>) {
    forall i, j :: 0 <= i < j < |s| ==> s[i] != s[j]
  }

  lemma SortOfApart(s: seq<nat>)
    requires Apart(s)
    ensures Rising(Sort(Ascending, s))
    ensures forall n :: n in Sort(Ascending, s) <==> n in s
  {
    SortMembers(Ascending, s);
    SortSorts(Ascending, s);
    SortStaysApart(s);
  }

  lemma {:induction false} SortStaysApart(s: seq<nat>)
    requires Apart(s)
    ensures Apart(Sort(Ascending, s))
  {
    if s != [] {
      SortStaysApart(s[1..]);
      SortMembers(Ascending, s[1..]);
      InsertStaysApart(s[0], Sort(Ascending, s[1..]));
    }
  }

  lemma {:induction false} InsertStaysApart(x: nat, s: seq<nat>)
    requires Apart(s) && x !in s
    ensures Apart(Insert(Ascending, x, s))
    ensures forall y :: y in Insert(Ascending, x, s) <==> y == x || y in s
  {
    if s == [] || !Ascending(s[0], x) {
    } else {
      InsertStaysApart(x, s[1..]);
      assert s == [s[0]] + s[1..];
      var rest := Insert(Ascending, x, s[1..]);
      assert s[0] !in s[1..];
      assert s[0] !in rest;
      assert forall j :: 0 <= j < |rest| ==> rest[j] in rest;
    }
  }

  // ----- Reading -----

  /** `LoadGeneration` succeeds: the file fits the read limit, decodes, parses within the document limit and compiles. */
  predicate Loads<B, D>(env: Env<B, D>, files: map<nat, File<B, D>>, io: Io, n: nat) {
    && n in files && io.readable(n) && files[n].Intact?
    && GENERATION_HEADER_BYTES + env.size(files[n].doc) <= env.maxBytes
    && env.size(files[n].doc) <= MAX_DOCUMENT_BYTES && env.parses(files[n].doc)
    && files[n].doc.generation == n
    && env.compiles(files[n].doc)
  }

  /** from, from - 1, ..., to. */
  function Countdown(from: nat, to: nat): (s: seq<nat>)
    ensures |s| == if from < to then 0 else from - to + 1
    decreases from - to
  {
    if from < to then []
    else if from == to then [from]
    else Countdown(from, to + 1) + [to]
  }

  /** Reading back is narrower than publishing: the read limit counts the header too, and the document
      parser has a limit of its own. Within both, and only then, an undamaged head loads. */
  lemma HeadLoadsIff<B(!new), D(!new)>(env: Env<B, D>, w: World<B, D>, io: Io)
    requires Sound(env, w) && w.history != []
    requires w.meta.generation in w.files && w.files[w.meta.generation].Intact?
    requires io.readable(w.meta.generation)
    ensures Loads(env, w.files, io, w.meta.generation) <==>
      var head := w.history[|w.history| - 1];
      && 96 + env.size(head) <= env.maxBytes
      && env.size(head) <= 8_388_608
      && env.parses(head)
  {
    assert Publishable(env, w.history[|w.history| - 1]);
  }

  /** A directory whose documents are as large as their content says. */
  function Sized(maxBytes: nat): Env<nat, nat> {
    Env(size => size, (doc: Doc<nat, nat>) => doc.body, (doc: Doc<nat, nat>) => doc.body, (doc: Doc<nat, nat>) => true,
        (doc: Doc<nat, nat>) => true, 0, 0, maxBytes)
  }

  /** Opening the directory and publishing one document. */
  ghost function FirstPublication<B, D>(doc: Doc<B, D>): seq<Action<B, D>> {
    [Acquire, BumpMeta, WriteFile(doc), CommitMeta]
  }

  lemma OpeningRuns<B(!new), D(!new)>(env: Env<B, D>, run: seq<Action<B, D>>)
    requires run == [Acquire, BumpMeta]
    ensures IsRun(Protocol(env), Initial(env), run)
    ensures After(Protocol(env), Initial(env), run) == World(Meta(0, env.noDigest, 1, 1, 0), map[], Idle, [])
  {
    var none: seq<Action<B, D>> := [];
    RunGrows(Protocol(env), Initial(env), none, Acquire);
    RunGrows(Protocol(env), Initial(env), [Acquire], BumpMeta);
    assert none + [Acquire] == [Acquire] && [Acquire] + [BumpMeta] == run;
  }

  lemma FirstPublicationRuns<B(!new), D(!new)>(env: Env<B, D>, doc: Doc<B, D>)
    requires env.maxGenerations == 0 && doc == Doc(1, 1, None, doc.body) && Publishable(env, doc)
    ensures IsRun(Protocol(env), Initial(env), FirstPublication(doc))
    ensures var w := After(Protocol(env), Initial(env), FirstPublication(doc));
      w.meta.generation == 1 && w.history == [doc] && w.files == map[1 := Intact(doc)]
  {
    var run: seq<Action<B, D>> := [Acquire, BumpMeta];
    OpeningRuns(env, run);
    hide IsRun, After;
    RunGrows(Protocol(env), Initial(env), run, WriteFile(doc));
    RunGrows(Protocol(env), Initial(env), run + [WriteFile(doc)], CommitMeta);
    assert run + [WriteFile(doc)] + [CommitMeta] == FirstPublication(doc);
  }

  function Content(size: nat): Doc<nat, nat> {
    Doc(1, 1, None, size)
  }

  /** A document of 50 bytes, published within a limit of 100, does not load; nor one of 9 MiB within 16 MiB. */
  lemma PublishedHeadsDoNotLoad(io: Io)
    ensures var env := Sized(100);
      && IsRun(Protocol(env), Initial(env), FirstPublication(Content(50)))
      && !Loads(env, After(Protocol(env), Initial(env), FirstPublication(Content(50))).files, io, 1)
    ensures var env, mib := Sized(0x100_0000), 0x10_0000;
      && IsRun(Protocol(env), Initial(env), FirstPublication(Content(9 * mib)))
      && !Loads(env, After(Protocol(env), Initial(env), FirstPublication(Content(9 * mib))).files, io, 1)
  {
    FirstPublicationRuns(Sized(100), Content(50));
    FirstPublicationRuns(Sized(0x100_0000), Content(9 * 0x10_0000));
    hide After, IsRun;
  }

  datatype Loaded<B, D> = Loaded(doc: Doc<B, D>, recovered: bool, skipped: seq<nat>, discarded: seq<nat>)

  datatype Receipt<D> = Receipt(number: nat, digest: D, meta: Meta<D>)

  function Bumped<D>(meta: Meta<D>): Meta<D> {
    meta.(incarnation := meta.incarnation + 1, epoch := meta.epoch + 1)
  }

  /** Both counters have a successor. */
  predicate CanBump<D>(meta: Meta<D>) {
    meta.incarnation < 0xFFFF_FFFF_FFFF_FFFF && meta.epoch < 0xFFFF_FFFF_FFFF_FFFF
  }

  /** Why an opening fails, if it does. */
  function OpenError<D>(writable: bool, locked: bool, meta: Meta<D>, io: Io): Error {
    if writable && locked then LockContention
    else if writable && io.readMeta && !CanBump(meta) then CounterOverflow
    else IoError
  }

  /** What Publish writes: the content normalised, numbered and chained onto the head. */
  function Prepared<B, D>(env: Env<B, D>, meta: Meta<D>, body: B): Doc<B, D> {
    Doc(meta.generation + 1, meta.epoch, ParentOf(meta), env.normalize(body))
  }

  /** The first of the three fence checks to fail. */
  function FenceError(fence: Fence, current: Fence): Error
    requires fence != current
  {
    if fence.generation != current.generation then StaleGeneration
    else if fence.epoch != current.epoch then StaleEpoch
    else StaleIncarnation
  }

  /** The bound on retained files leaves room for one more. */
  predicate HasRoom<B, D>(env: Env<B, D>, files: map<nat, File<B, D>>, io: Io) {
    env.maxGenerations == 0 || (io.list && |files| < env.maxGenerations)
  }

  /** Everything that has to hold before the first file is touched. */
  ghost predicate Admissible<B, D>(env: Env<B, D>, w: World<B, D>, body: B, fence: Fence, checks: nat, io: Io) {
    && checks >= 3
    && io.readMeta
    && fence == FenceOf(w.meta)
    && w.meta.generation < MAX_U64
    && HasRoom(env, w.files, io)
    && Publishable(env, Prepared(env, w.meta, body))
  }

  /** The refusal names something that is the case. */
  ghost predicate Explains<B, D>(error: Error, env: Env<B, D>, w: World<B, D>, body: B, fence: Fence, checks: nat, io: Io) {
    match error
    case Cancelled => checks < 4
    case IoError => !io.readMeta || !io.writeFile || !io.writeMeta || (env.maxGenerations != 0 && !io.list)
    case StaleGeneration => fence.generation != w.meta.generation
    case StaleEpoch => fence.epoch != w.meta.epoch
    case StaleIncarnation => fence.incarnation != w.meta.incarnation
    case CounterOverflow => w.meta.generation >= 0xFFFF_FFFF_FFFF_FFFF
    case GenerationLimitReached => 0 < env.maxGenerations <= |w.files|
    case CompileFailed => !env.compiles(Prepared(env, w.meta, body))
    case LimitExceeded => env.size(Prepared(env, w.meta, body)) > env.maxBytes
    case _ => false
  }

  ghost function FileEffects<B, D>(doc: Doc<B, D>, io: Io): seq<Action<B, D>> {
    (if io.removable(doc.generation) then [RemoveFile(doc.generation)] else [])
    + (if io.writeFile then [WriteFile(doc)] else [])
  }

  ghost function HeadEffects<B, D>(doc: Doc<B, D>, checks: nat, io: Io): seq<Action<B, D>> {
    if checks < 4 then [Abandon] + (if io.removable(doc.generation) then [RemoveFile(doc.generation)] else [])
    else if io.writeMeta then [CommitMeta]
    else [Abandon]
  }

  /** Admission, writing and switching all go through. */
  ghost predicate Publishes<B, D>(env: Env<B, D>, w: World<B, D>, body: B, fence: Fence, checks: nat, io: Io) {
    Admissible(env, w, body, fence, checks, io) && checks >= 4 && io.writeFile && io.writeMeta
  }

  lemma ExplainsLate<B, D>(env: Env<B, D>, w: World<B, D>, body: B, fence: Fence, checks: nat, io: Io)
    ensures checks < 4 ==> Explains(Cancelled, env, w, body, fence, checks, io)
    ensures !io.writeFile || !io.writeMeta ==> Explains(IoError, env, w, body, fence, checks, io)
  {
  }

  /** One document more: numbered after the last, naming its digest, with the content in normal form. */
  ghost predicate IsSuccessor<B, D>(env: Env<B, D>, before: seq<Doc<B, D>>, after: seq<Doc<B, D>>, epoch: nat, body: B) {
    && |after| == |before| + 1 && after[..|before|] == before
    && var doc := after[|before|];
       && doc.generation == |before| + 1 && doc.epoch == epoch && doc.body == env.normalize(body)
       && doc.parent == if before == [] then None else Some(env.digest(before[|before| - 1]))
  }

  lemma PublishedIsSuccessor<B, D>(env: Env<B, D>, w: World<B, D>, body: B)
    requires Sound(env, w)
    ensures IsSuccessor(env, w.history, w.history + [Prepared(env, w.meta, body)], w.meta.epoch, body)
  {
    assert (w.history + [Prepared(env, w.meta, body)])[..|w.history|] == w.history;
  }

  ghost function Cleared<B, D>(env: Env<B, D>, w: World<B, D>, doc: Doc<B, D>, io: Io): World<B, D> {
    if io.removable(doc.generation) then Do(env, w, RemoveFile(doc.generation)) else w
  }

  ghost function Documented<B, D>(env: Env<B, D>, w: World<B, D>, doc: Doc<B, D>, io: Io): World<B, D> {
    if io.writeFile then Do(env, Cleared(env, w, doc, io), WriteFile(doc)) else Cleared(env, w, doc, io)
  }

  ghost function Switched<B, D>(env: Env<B, D>, w: World<B, D>, doc: Doc<B, D>, checks: nat, io: Io): World<B, D> {
    if checks < 4 then Cleared(env, Do(env, w, Abandon), doc, io)
    else if io.writeMeta then Do(env, w, CommitMeta)
    else Do(env, w, Abandon)
  }

  /** The directory after an attempt to publish, step of the protocol by step. */
  ghost function PublishedWorld<B, D>(env: Env<B, D>, w: World<B, D>, body: B, fence: Fence, checks: nat, io: Io): World<B, D> {
    if !Admissible(env, w, body, fence, checks, io) then w
    else
      var doc := Prepared(env, w.meta, body);
      var v := Documented(env, w, doc, io);
      if io.writeFile then Switched(env, v, doc, checks, io) else v
  }

  class RegistryStore<B(!new), D(!new)> {
    const directory: Directory<B, D>
    const writable: bool
    const epoch: nat
    const incarnation: nat

    constructor (directory: Directory<B, D>, writable: bool, epoch: nat, incarnation: nat)
      ensures this.directory == directory && this.writable == writable
      ensures this.epoch == epoch && this.incarnation == incarnation
    {
      this.directory, this.writable, this.epoch, this.incarnation := directory, writable, epoch, incarnation;
    }

    /** A writable store is the holder of the writer lock. */
    ghost predicate Valid()
      reads directory
    {
      directory.Valid() && (writable ==> directory.writer == Idle)
    }

    /** With the lock held, moves both counters on, or lets go of the lock. */
    static method TakeOver(directory: Directory<B, D>, io: Io) returns (r: Result<Fence>)
      requires directory.Valid() && directory.writer == Opening
      modifies directory
      ensures directory.Valid()
      ensures r.Ok? <==> io.readMeta && io.writeMeta && CanBump(old(directory.meta))
      ensures r.Err? ==> r.error == if io.readMeta && !CanBump(old(directory.meta)) then CounterOverflow else IoError
      ensures r.Err? ==> directory.log == old(directory.log) + [Action.Stop] && directory.meta == old(directory.meta)
      ensures r.Err? ==> !directory.locked
      ensures r.Ok? ==> directory.log == old(directory.log) + [BumpMeta] && directory.writer == Idle
      ensures r.Ok? ==> r.value == FenceOf(directory.meta)
      ensures r.Ok? ==> directory.meta == Bumped(old(directory.meta))
      ensures r.Ok? ==> r.value.incarnation == old(directory.meta.incarnation) + 1 && r.value.epoch == old(directory.meta.epoch) + 1
      ensures directory.files == old(directory.files) && directory.history == old(directory.history)
    {
      hide IsRun, After;
      var current := directory.meta;
      if !io.readMeta {
        directory.Unlock();
        return Err(IoError);
      }
      if current.incarnation >= MAX_U64 || current.epoch >= MAX_U64 {
        directory.Unlock();
        return Err(CounterOverflow);
      }
      if !io.writeMeta {
        directory.Unlock();
        return Err(IoError);
      }
      current := Bumped(current);
      directory.WriteMeta(current, true, BumpMeta);
      return Ok(FenceOf(current));
    }

    /** Opening for writing takes the lock and moves both counters on; a failed open leaves the lock free. */
    static method Open(directory: Directory<B, D>, writable: bool, io: Io) returns (r: Result<RegistryStore<B, D>>)
      requires directory.Valid()
      modifies directory
      ensures directory.Valid()
      ensures r.Ok? <==> io.readMeta && (writable ==> !old(directory.locked) && io.writeMeta && CanBump(old(directory.meta)))
      ensures r.Err? ==> r.error == OpenError(writable, old(directory.locked), old(directory.meta), io)
      ensures !writable ==> directory.log == old(directory.log)
      ensures r.Err? ==> directory.locked == old(directory.locked)
      ensures writable && old(directory.locked) ==> r == Err(LockContention) && directory.log == old(directory.log)
      ensures writable && !old(directory.locked) && r.Err? ==>
        directory.log == old(directory.log) + [Acquire] + [Action.Stop] && directory.meta == old(directory.meta)
      ensures writable && r.Ok? ==> directory.log == old(directory.log) + [Acquire] + [BumpMeta]
      ensures writable && r.Ok? ==> directory.meta == Bumped(old(directory.meta))
      ensures writable && r.Ok? ==>
        directory.meta.incarnation > old(directory.meta.incarnation) && directory.meta.epoch > old(directory.meta.epoch)
      ensures directory.files == old(directory.files) && directory.history == old(directory.history)
      ensures r.Ok? ==> r.value.directory == directory && r.value.writable == writable && r.value.Valid()
      ensures r.Ok? ==> r.value.epoch == directory.meta.epoch && r.value.incarnation == directory.meta.incarnation
    {
      hide IsRun, After;
      var current := FenceOf(directory.meta);
      if writable {
        var held := directory.TryLock();
        if !held { return Err(LockContention); }
        var taken := TakeOver(directory, io);
        if taken.Err? { return Err(taken.error); }
        current := taken.value;
      } else if !io.readMeta {
        return Err(IoError);
      }
      var store := new RegistryStore<B, D>(directory, writable, current.epoch, current.incarnation);
      return Ok(store);
    }

    /** The checks before the commit. `checks` of the four looks at the token find it not cancelled. */
    method Admit(body: B, fence: Fence, checks: nat, io: Io) returns (r: Result<Doc<B, D>>)
      requires Valid()
      ensures r.Ok? <==> writable && Admissible(directory.env, directory.World(), body, fence, checks, io)
      ensures !writable ==> r == Err(ImmutableGeneration)
      ensures writable && r.Err? ==> Explains(r.error, directory.env, directory.World(), body, fence, checks, io)
      ensures r.Err? && r.error == Cancelled ==> checks < 3
      ensures r.Ok? ==> r.value == Prepared(directory.env, directory.meta, body)
      ensures r.Ok? ==> Publishable(directory.env, r.value) && directory.meta.generation < 0xFFFF_FFFF_FFFF_FFFF
      ensures r.Ok? && directory.env.maxGenerations != 0 ==> |directory.files| < directory.env.maxGenerations
      ensures writable && checks > 0 && io.readMeta && fence != FenceOf(directory.meta)
        ==> r == Err(FenceError(fence, FenceOf(directory.meta)))
    {
      if !writable { return Err(ImmutableGeneration); }
      if checks == 0 { return Err(Cancelled); }
      if !io.readMeta { return Err(IoError); }
      var current := FenceOf(directory.meta);
      if fence.generation != current.generation { return Err(StaleGeneration); }
      if fence.epoch != current.epoch { return Err(StaleEpoch); }
      if fence.incarnation != current.incarnation { return Err(StaleIncarnation); }
      if current.generation >= MAX_U64 { return Err(CounterOverflow); }
      if directory.env.maxGenerations != 0 {
        if !io.list { return Err(IoError); }
        var retained := directory.List();
        assert |directory.files| == |directory.files.Keys|;
        if |retained| >= directory.env.maxGenerations { return Err(GenerationLimitReached); }
      }
      var doc := Prepared(directory.env, directory.meta, body);
      if checks == 1 { return Err(Cancelled); }
      if !directory.env.compiles(doc) { return Err(CompileFailed); }
      if directory.env.size(doc) > directory.env.maxBytes { return Err(LimitExceeded); }
      if checks == 2 { return Err(Cancelled); }
      return Ok(doc);
    }

    method ClearStale(doc: Doc<B, D>, io: Io)
      requires Valid() && writable && doc.generation != directory.meta.generation
      modifies directory
      ensures Valid()
      ensures directory.log == old(directory.log) + if io.removable(doc.generation) then [RemoveFile(doc.generation)] else []
      ensures directory.World() == Cleared(directory.env, old(directory.World()), doc, io)
      ensures directory.files - {doc.generation} == old(directory.files) - {doc.generation}
      ensures |directory.files - {doc.generation}| <= |old(directory.files)|
      ensures directory.files[doc.generation := Intact(doc)] == old(directory.files)[doc.generation := Intact(doc)]
    {
      hide IsRun, After;
      FilesStayBounded(directory.files, doc.generation, Damaged);
      directory.Remove(doc.generation, io.removable(doc.generation));
    }

    /** Clears whatever an interrupted publication left under the number, then writes the file. */
    method WriteDocument(doc: Doc<B, D>, io: Io)
      requires Valid() && writable
      requires directory.meta.generation < MAX_U64
      requires Extends(directory.meta, doc) && Publishable(directory.env, doc)
      requires directory.env.maxGenerations != 0 ==> |directory.files| < directory.env.maxGenerations
      modifies directory
      ensures directory.Valid()
      ensures directory.log == old(directory.log) + FileEffects(doc, io)
      ensures directory.World() == Documented(directory.env, old(directory.World()), doc, io)
      ensures directory.writer == if io.writeFile then Written(doc) else Idle
      ensures io.writeFile ==> directory.files == old(directory.files)[doc.generation := Intact(doc)]
      ensures !io.writeFile ==> directory.files - {doc.generation} == old(directory.files) - {doc.generation}
    {
      hide IsRun, After;
      ClearStale(doc, io);
      ghost var cleared := directory.World();
      assert Enabled(directory.env, cleared, WriteFile(doc));
      directory.WriteGeneration(doc, io.writeFile);
    }

    /** The metadata rename is the commit point; a late cancellation takes the file away again. */
    method SwitchHead(doc: Doc<B, D>, checks: nat, io: Io) returns (r: Result<Receipt<D>>)
      requires directory.Valid() && directory.writer == Written(doc) && writable
      requires Extends(directory.meta, doc)
      modifies directory
      ensures Valid()
      ensures r.Ok? <==> checks >= 4 && io.writeMeta
      ensures r.Err? ==> r.error == if checks < 4 then Cancelled else IoError
      ensures directory.log == old(directory.log) + HeadEffects(doc, checks, io)
      ensures directory.World() == Switched(directory.env, old(directory.World()), doc, checks, io)
      ensures r.Ok? ==> r.value == Receipt(doc.generation, directory.env.digest(doc), directory.meta)
      ensures r.Ok? ==> directory.meta == CommittedMeta(directory.env, old(directory.meta), doc)
      ensures r.Ok? ==> directory.history == old(directory.history) + [doc] && directory.files == old(directory.files)
      ensures r.Err? ==> directory.meta == old(directory.meta) && directory.history == old(directory.history)
      ensures directory.files - {doc.generation} == old(directory.files) - {doc.generation}
    {
      hide IsRun, After;
      if checks < 4 {
        directory.GiveUp();
        directory.Remove(doc.generation, io.removable(doc.generation));
        return Err(Cancelled);
      }
      var updated := CommittedMeta(directory.env, directory.meta, doc);
      directory.WriteMeta(updated, io.writeMeta, CommitMeta);
      if !io.writeMeta {
        directory.GiveUp();
        return Err(IoError);
      }
      return Ok(Receipt(doc.generation, updated.digest, updated));
    }

    /** Succeeds exactly when everything holds; then the head is the prepared document, and otherwise
        head and history are as before and no file but the next one has changed. */
    method Publish(body: B, fence: Fence, checks: nat, io: Io) returns (r: Result<Receipt<D>>)
      requires Valid()
      modifies directory
      ensures Valid()
      ensures r.Ok? <==> writable && Publishes(directory.env, old(directory.World()), body, fence, checks, io)
      ensures directory.World() == if writable then PublishedWorld(directory.env, old(directory.World()), body, fence, checks, io)
                                   else old(directory.World())
      ensures writable && checks > 0 && io.readMeta && fence != FenceOf(old(directory.meta))
        ==> r == Err(FenceError(fence, FenceOf(old(directory.meta)))) && directory.log == old(directory.log)
      ensures r.Ok? ==>
        var doc := Prepared(directory.env, old(directory.meta), body);
        && r.value == Receipt(doc.generation, directory.env.digest(doc), directory.meta)
        && directory.meta == CommittedMeta(directory.env, old(directory.meta), doc)
        && directory.history == old(directory.history) + [doc]
        && directory.files == old(directory.files)[doc.generation := Intact(doc)]
        && directory.log == old(directory.log) + FileEffects(doc, io) + [CommitMeta]
      ensures r.Ok? ==> IsSuccessor(directory.env, old(directory.history), directory.history, old(directory.meta.epoch), body)
      ensures !writable ==> r == Err(ImmutableGeneration)
      ensures writable && r.Err? ==> Explains(r.error, directory.env, old(directory.World()), body, fence, checks, io)
      ensures r.Err? ==>
        var next := old(directory.meta.generation) + 1;
        && directory.meta == old(directory.meta)
        && directory.history == old(directory.history)
        && directory.files - {next} == old(directory.files) - {next}
    {
      hide IsRun, After, Admissible, Publishable, Explains;
      directory.ValidIsSound();
      PublishedIsSuccessor(directory.env, directory.World(), body);
      ExplainsLate(directory.env, directory.World(), body, fence, checks, io);
      var admitted := Admit(body, fence, checks, io);
      if admitted.Err? { return Err(admitted.error); }
      var doc := admitted.value;
      WriteDocument(doc, io);
      if !io.writeFile { return Err(IoError); }
      r := SwitchHead(doc, checks, io);
    }

    // ----- Loading -----

    /** Nothing but the listed files has changed since the given state. */
    ghost predicate OnlyRemoved(w: World<B, D>, removed: set<nat>)
      reads directory
    {
      && directory.meta == w.meta && directory.writer == w.writer && directory.history == w.history
      && directory.files == w.files - removed
    }

    method RemoveOne(n: nat, io: Io, removed: seq<nat>, ghost w: World<B, D>) returns (longer: seq<nat>)
      requires Valid() && writable && n != directory.meta.generation
      requires OnlyRemoved(w, Members(removed))
      modifies directory
      ensures Valid()
      ensures longer == if io.removable(n) then removed + [n] else removed
      ensures OnlyRemoved(w, Members(longer))
    {
      hide IsRun, After;
      RemovedGrows(w.files, removed, n);
      directory.Remove(n, io.removable(n));
      longer := if io.removable(n) then removed + [n] else removed;
    }

    /** Removes the files above the head, as far as they let themselves be removed. */
    method DiscardUncommitted(io: Io) returns (discarded: seq<nat>)
      requires Valid() && writable
      modifies directory
      ensures Valid()
      ensures OnlyRemoved(old(directory.World()), Members(discarded))
      ensures AreDebris(old(directory.files.Keys), directory.meta.generation, io, discarded)
    {
      hide IsRun, After, IsListing, Removable;
      assert directory.files - Members([]) == directory.files;
      if !io.list { return []; }
      var listed := directory.List();
      discarded := RemoveAbove(directory.meta.generation, listed, io);
      DebrisAreListed(old(directory.files.Keys), directory.meta.generation, listed, io);
    }

    method RemoveAbove(head: nat, listed: seq<nat>, io: Io) returns (discarded: seq<nat>)
      requires Valid() && writable && head == directory.meta.generation
      modifies directory
      ensures Valid()
      ensures OnlyRemoved(old(directory.World()), Members(discarded))
      ensures discarded == Removable(listed, head + 1, io)
    {
      hide IsRun, After;
      discarded := [];
      assert directory.files - Members([]) == directory.files;
      for i := 0 to |listed|
        invariant Valid() && directory.meta.generation == head
        invariant OnlyRemoved(old(directory.World()), Members(discarded))
        invariant discarded == Removable(listed[..i], head + 1, io)
      {
        assert listed[..i + 1][..i] == listed[..i];
        if listed[i] > head {
          discarded := RemoveOne(listed[i], io, discarded, old(directory.World()));
        }
      }
      assert listed[..|listed|] == listed;
    }

    method LoadGeneration(number: nat, io: Io) returns (r: Result<Doc<B, D>>)
      requires directory.Valid()
      ensures r.Ok? <==> Loads(directory.env, directory.files, io, number)
      ensures r.Ok? ==> directory.files[number] == Intact(r.value)
      ensures r.Err? && r.error == NotFound <==> number !in directory.files || !io.readable(number)
      ensures r.Err? && r.error != NotFound ==> r.error in [CorruptPersistence, LimitExceeded, CompileFailed]
    {
      if number !in directory.files || !io.readable(number) { return Err(NotFound); }
      match directory.files[number] {
        case Damaged => return Err(CorruptPersistence);
        case Intact(doc) =>
          if GENERATION_HEADER_BYTES + directory.env.size(doc) > directory.env.maxBytes { return Err(LimitExceeded); }
          if directory.env.size(doc) > MAX_DOCUMENT_BYTES || !directory.env.parses(doc) { return Err(CorruptPersistence); }
          if doc.generation != number { return Err(CorruptPersistence); }
          if !directory.env.compiles(doc) { return Err(CompileFailed); }
          return Ok(doc);
      }
    }

    /** The largest number up to `head` that loads, and every number passed over on the way. */
    method Recover(head: nat, io: Io) returns (found: Option<Doc<B, D>>, skipped: seq<nat>)
      requires directory.Valid()
      ensures found.Some? ==>
        && found.value.generation <= head
        && Loads(directory.env, directory.files, io, found.value.generation)
        && directory.files[found.value.generation] == Intact(found.value)
        && (forall m :: found.value.generation < m <= head ==> !Loads(directory.env, directory.files, io, m))
        && skipped == Countdown(head, found.value.generation + 1)
      ensures found.None? ==> forall m :: 0 <= m <= head ==> !Loads(directory.env, directory.files, io, m)
    {
      var candidate: nat := head;
      skipped := [];
      while true
        invariant 0 <= candidate <= head
        invariant skipped == Countdown(head, candidate + 1)
        invariant forall m :: candidate < m <= head ==> !Loads(directory.env, directory.files, io, m)
        decreases candidate
      {
        var loaded := LoadGeneration(candidate, io);
        if loaded.Ok? {
          return Some(loaded.value), skipped;
        }
        skipped := skipped + [candidate];
        if candidate == 0 { return None, skipped; }
        candidate := candidate - 1;
      }
    }

    lemma LoadedIsCommitted(w: World<B, D>, io: Io, loaded: Loaded<B, D>)
      requires Sound(directory.env, w)
      requires var n := loaded.doc.generation;
        && n <= w.meta.generation
        && Loads(directory.env, w.files, io, n) && w.files[n] == Intact(loaded.doc)
        && (forall m :: n < m <= w.meta.generation ==> !Loads(directory.env, w.files, io, m))
        && loaded.skipped == Countdown(w.meta.generation, n + 1)
        && loaded.recovered == (loaded.skipped != [])
      ensures IsNewestVerifiable(w, io, loaded)
    {
    }

    lemma NothingAtZero()
      requires directory.Valid()
      ensures 0 !in directory.files
    {
      directory.ValidIsSound();
    }

    method LoadFrom(head: nat, discarded: seq<nat>, io: Io) returns (r: Result<Loaded<B, D>>)
      requires directory.Valid() && head == directory.meta.generation
      ensures r.Ok? ==> IsNewestVerifiable(directory.World(), io, r.value) && r.value.discarded == discarded
      ensures r.Err? ==> forall m :: 0 <= m <= head ==> !Loads(directory.env, directory.files, io, m)
      ensures r.Err? ==> r.error == CorruptPersistence
    {
      var found, skipped := Recover(head, io);
      if found.None? { return Err(CorruptPersistence); }
      var loaded := Loaded(found.value, skipped != [], skipped, discarded);
      directory.ValidIsSound();
      LoadedIsCommitted(directory.World(), io, loaded);
      return Ok(loaded);
    }

    /** What loads is the document committed under its number, the newest that can be verified. */
    method LoadLatest(io: Io) returns (r: Result<Loaded<B, D>>)
      requires Valid()
      modifies directory
      ensures Valid()
      ensures directory.World() == old(directory.World()).(files := directory.files)
      ensures !writable ==> directory.log == old(directory.log)
      ensures r.Ok? ==> OnlyRemoved(old(directory.World()), Members(r.value.discarded))
      ensures r.Ok? && writable ==> AreDebris(old(directory.files.Keys), directory.meta.generation, io, r.value.discarded)
      ensures r.Ok? && !writable ==> r.value.discarded == []
      ensures r.Ok? ==> IsNewestVerifiable(directory.World(), io, r.value)
      ensures r.Err? && io.readMeta ==>
        forall m :: 0 <= m <= directory.meta.generation ==> !Loads(directory.env, directory.files, io, m)
      ensures !io.readMeta ==> r == Err(IoError)
      ensures r.Err? && io.readMeta ==> r.error == if directory.meta.generation == 0 then NotFound else CorruptPersistence
    {
      hide IsRun, After;
      if !io.readMeta { return Err(IoError); }
      var head := directory.meta.generation;
      NothingAtZero();
      if head == 0 { return Err(NotFound); }
      var discarded := [];
      if writable {
        discarded := DiscardUncommitted(io);
      }
      assert directory.files - {} == directory.files;
      r := LoadFrom(head, discarded, io);
    }

    ghost predicate IsNewestVerifiable(w: World<B, D>, io: Io, loaded: Loaded<B, D>) {
      var n := loaded.doc.generation;
      && 0 < n <= |w.history|
      && loaded.doc == w.history[n - 1]
      && Loads(directory.env, w.files, io, n)
      && (forall m :: n < m <= |w.history| ==> !Loads(directory.env, w.files, io, m))
      && loaded.skipped == Countdown(|w.history|, n + 1)
      && (loaded.recovered <==> n < |w.history|)
    }

    // ----- Pruning -----

    /** Removes the oldest files beyond `keep`, stopping at the head. */
    method Prune(keep: nat, io: Io) returns (r: Result<seq<nat>>)
      requires Valid()
      modifies directory
      ensures Valid()
      ensures r.Ok? <==> writable && io.readMeta && io.list
      ensures r.Err? ==> r.error == if writable then IoError else ImmutableGeneration
      ensures r.Err? ==> directory.log == old(directory.log)
      ensures r.Ok? ==> OnlyRemoved(old(directory.World()), Members(r.value))
      ensures r.Ok? ==> IsPruned(old(directory.files.Keys), directory.meta.generation, keep, io, r.value)
    {
      hide IsRun, After;
      if !writable { return Err(ImmutableGeneration); }
      if !io.readMeta || !io.list { return Err(IoError); }
      var all := directory.List();
      assert directory.files - Members([]) == directory.files;
      if |all| <= keep {
        OldestAreRemoved(old(directory.files.Keys), directory.meta.generation, keep, io, [], all, 0);
        return Ok([]);
      }
      var removed, i := RemoveOldest(directory.meta.generation, all, |all| - keep, io);
      OldestAreRemoved(old(directory.files.Keys), directory.meta.generation, keep, io, removed, all, i);
      return Ok(removed);
    }

    method RemoveOldest(head: nat, all: seq<nat>, drop: nat, io: Io) returns (removed: seq<nat>, i: nat)
      requires Valid() && writable && head == directory.meta.generation
      requires drop <= |all|
      modifies directory
      ensures Valid()
      ensures OnlyRemoved(old(directory.World()), Members(removed))
      ensures i <= drop && (i < drop ==> all[i] == head) && head !in all[..i]
      ensures removed == Removable(all[..i], 0, io)
    {
      hide IsRun, After;
      removed, i := [], 0;
      assert directory.files - Members([]) == directory.files;
      while i < drop
        invariant i <= drop
        invariant Valid() && directory.meta.generation == head
        invariant OnlyRemoved(old(directory.World()), Members(removed))
        invariant head !in all[..i]
        invariant removed == Removable(all[..i], 0, io)
      {
        if all[i] == head { break; }
        removed := RemoveOne(all[i], io, removed, old(directory.World()));
        assert all[..i + 1][..i] == all[..i];
        i := i + 1;
      }
    }
  }

  lemma OldestAreRemoved(keys: set<nat>, head: nat, keep: nat, io: Io, removed: seq<nat>, all: seq<nat>, i: nat)
    requires IsListing(keys, all)
    requires i <= |all| - keep || i == 0
    requires i < |all| - keep ==> all[i] == head
    requires head !in all[..i]
    requires removed == Removable(all[..i], 0, io)
    ensures IsPruned(keys, head, keep, io, removed)
  {
    RemovableMembers(all[..i], 0, io);
    forall n, m | n in removed && m in keys && ((m !in removed && io.removable(m)) || m == head) ensures n < m {
      var j :| 0 <= j < i && all[..i][j] == n;
      var k :| 0 <= k < |all| && all[k] == m;
      assert m !in all[..i];
      assert forall x :: 0 <= x < i ==> all[..i][x] == all[x];
      assert i <= k;
    }
    forall m | m in keys && m !in removed && io.removable(m)
      ensures (head in keys && m >= head) || |FromOn(keys, m)| <= keep
    {
      var k :| 0 <= k < |all| && all[k] == m;
      assert m !in all[..i];
      assert forall x :: 0 <= x < i ==> all[..i][x] == all[x];
      RankFromEnd(keys, all, k);
    }
  }

  lemma NextInListing(keys: set<nat>, all: seq<nat>, k: nat, n: nat)
    requires IsListing(keys, all) && k + 1 < |all| && n in keys
    ensures n <= all[k] || n >= all[k + 1]
  {
    var j :| 0 <= j < |all| && all[j] == n;
    assert j < k ==> all[j] < all[k];
    assert j > k + 1 ==> all[k + 1] < all[j];
  }

  lemma OneFurther(keys: set<nat>, all: seq<nat>, k: nat)
    requires IsListing(keys, all) && k + 1 < |all|
    ensures FromOn(keys, all[k]) == {all[k]} + FromOn(keys, all[k + 1])
    ensures all[k] !in FromOn(keys, all[k + 1])
  {
    assert all[k] in keys && all[k] < all[k + 1];
    forall n | n in keys ensures n <= all[k] || n >= all[k + 1] {
      NextInListing(keys, all, k, n);
    }
  }

  lemma {:induction false} RankFromEnd(keys: set<nat>, all: seq<nat>, k: nat)
    requires IsListing(keys, all) && k < |all|
    ensures |FromOn(keys, all[k])| == |all| - k
    decreases |all| - k
  {
    if k + 1 < |all| {
      OneFurther(keys, all, k);
      RankFromEnd(keys, all, k + 1);
    } else {
      LastAlone(keys, all);
    }
  }

  lemma LastAlone(keys: set<nat>, all: seq<nat>)
    requires IsListing(keys, all) && all != []
    ensures FromOn(keys, all[|all| - 1]) == {all[|all| - 1]}
  {
    forall n | n in keys ensures n <= all[|all| - 1] {
      var j :| 0 <= j < |all| && all[j] == n;
    }
    assert all[|all| - 1] in keys;
  }

  /** The numbers from `least` on that can be removed, in order. */
  function Removable(numbers: seq<nat>, least: nat, io: Io): (r: seq<nat>)
    ensures |r| <= |numbers|
  {
    if numbers == [] then []
    else
      var last := numbers[|numbers| - 1];
      Removable(numbers[..|numbers| - 1], least, io) + if last >= least && io.removable(last) then [last] else []
  }

  lemma {:induction false} RemovableMembers(numbers: seq<nat>, least: nat, io: Io)
    ensures forall n :: n in Removable(numbers, least, io) <==> n in numbers && n >= least && io.removable(n)
  {
    if numbers != [] {
      RemovableMembers(numbers[..|numbers| - 1], least, io);
      assert numbers == numbers[..|numbers| - 1] + [numbers[|numbers| - 1]];
    }
  }

  ghost function Members(s: seq<nat>): set<nat> {
    set n | n in s
  }

  lemma RemovedGrows<B, D>(files: map<nat, File<B, D>>, removed: seq<nat>, n: nat)
    ensures files - Members(removed) - {n} == files - Members(removed + [n])
  {
    assert Members(removed + [n]) == Members(removed) + {n};
  }

  lemma DebrisAreListed(keys: set<nat>, head: nat, listed: seq<nat>, io: Io)
    requires IsListing(keys, listed) && io.list
    ensures AreDebris(keys, head, io, Removable(listed, head + 1, io))
  {
    RemovableMembers(listed, head + 1, io);
  }

  /** What discarding leaves out of account is what it cannot list or remove. */
  ghost predicate AreDebris(keys: set<nat>, head: nat, io: Io, discarded: seq<nat>) {
    forall n :: n in discarded <==> n in keys && n > head && io.list && io.removable(n)
  }

  ghost function FromOn(keys: set<nat>, m: nat): set<nat> {
    set k | k in keys && k >= m
  }

  /** The head's file is spared, the removed files are the oldest and leave `keep` of them;
      a removable file that stays is at or above the head or one of the `keep` newest. */
  ghost predicate IsPruned(keys: set<nat>, head: nat, keep: nat, io: Io, removed: seq<nat>) {
    && (forall n :: n in removed ==> n in keys && n != head && io.removable(n))
    && (head in keys ==> forall n :: n in removed ==> n < head)
    && (forall n, m :: n in removed && m in keys && m !in removed && io.removable(m) ==> n < m)
    && (removed != [] ==> keep + |removed| <= |keys|)
    && (forall m :: m in keys && m !in removed && io.removable(m) ==>
          (head in keys && m >= head) || |FromOn(keys, m)| <= keep)
  }
}
