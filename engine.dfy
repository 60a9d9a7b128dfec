/**
 * The storage engine (go-kv/server/engine/engine.go): reads that fall back
 * from the memtable to the segments named in the manifest, newest first,
 * and writes that flush the memtable to a new segment at the threshold.
 * Each call is one atomic step (the engine's mutex); the data directory is
 * the pair of fields `manifest` (the lines of manifest.txt) and `files`
 * (segment name to lines; a name missing from it cannot be opened).
 */
module Engines {
  import opened Failures
  import opened SstNames
  import opened Segments
  import opened MemTables

  /** A Put flushes once the memtable holds this many keys. */
  const FlushThreshold: nat := 2000

  /** The engine's answer to a read: the value and whether the key was found. */
  datatype Reply = Reply(value: string, found: bool)

  /**
   * How the file system behaves during one flush: whether os.Create of the
   * segment succeeds, how many records the segment file takes, whether its
   * Sync succeeds, and whether the manifest's Sync succeeds.
   */
  datatype FlushEnv = FlushEnv(createOk: bool, room: nat, syncOk: bool, manifestSyncOk: bool)

  /**
   * The outer loop of getKeyFromSST from manifest index `i` down to 0:
   * Some(value) of the first segment that has the key, None when none has.
   * A segment that cannot be opened is passed over; a corrupt one is fatal.
   */
  function ScanSegments(manifest: seq<string>, files: map<string, seq<Line>>, key: string, i: int)
    : (r: Outcome<Option<string>>)
    requires i < |manifest|
    decreases i
  {
    if i < 0 then Ok(None)
    else if manifest[i] !in files then ScanSegments(manifest, files, key, i - 1)
    else
      match ScanSegment(files[manifest[i]], key, 0)
      case Hit(v) => Ok(Some(v))
      case Corrupt => Panic(CorruptRecord(manifest[i]))
      case Miss => ScanSegments(manifest, files, key, i - 1)
  }

  /**
   * getKeyFromSST: every manifest line but the last (the reservation),
   * newest first; "" when no segment has the key.
   */
  function SstValue(manifest: seq<string>, files: map<string, seq<Line>>, key: string): (r: Outcome<string>) {
    match ScanSegments(manifest, files, key, |manifest| - 2)
    case Ok(None) => Ok("")
    case Ok(Some(v)) => Ok(v)
    case Panic(c) => Panic(c)
  }

  /**
   * What a read answers: the memtable's value if it has the key; otherwise
   * the segment value, with "" taken to mean not found.
   */
  function Answer(mem: map<string, string>, manifest: seq<string>, files: map<string, seq<Line>>, key: string)
    : (r: Outcome<Reply>)
  {
    if key in mem then Ok(Reply(mem[key], true))
    else
      match SstValue(manifest, files, key)
      case Ok(v) => Ok(Reply(v, v != ""))
      case Panic(c) => Panic(c)
  }

  /** The corrected answer: a key found in a segment is found, whatever its value. */
  function IntendedAnswer(mem: map<string, string>, manifest: seq<string>, files: map<string, seq<Line>>, key: string)
    : (r: Outcome<Reply>)
  {
    if key in mem then Ok(Reply(mem[key], true))
    else
      match ScanSegments(manifest, files, key, |manifest| - 2)
      case Ok(Some(v)) => Ok(Reply(v, true))
      case Ok(None) => Ok(Reply("", false))
      case Panic(c) => Panic(c)
  }

  /** Segments at indices i+1 .. top either cannot be opened or do not hold the key. */
  ghost predicate MissesAbove(manifest: seq<string>, files: map<string, seq<Line>>, key: string, i: int, top: int)
    requires top < |manifest|
  {
    forall j :: i < j <= top && 0 <= j ==>
      manifest[j] !in files || ScanSegment(files[manifest[j]], key, 0) == Miss
  }

  /** The scan passes over every segment above `i` that misses. */
  lemma {:induction false} ScanPastNewer(manifest: seq<string>, files: map<string, seq<Line>>, key: string, i: int, top: int)
    requires -1 <= i <= top < |manifest|
    requires MissesAbove(manifest, files, key, i, top)
    ensures ScanSegments(manifest, files, key, top) == ScanSegments(manifest, files, key, i)
    decreases top - i
  {
    if i < top {
      ScanPastNewer(manifest, files, key, i, top - 1);
    }
  }

  /**
   * Newest value wins: the newest written segment holding the key decides
   * the result, whatever older segments hold.
   */
  lemma NewestMatchWins(manifest: seq<string>, files: map<string, seq<Line>>, key: string, i: int, v: string)
    requires 0 <= i <= |manifest| - 2
    requires manifest[i] in files && ScanSegment(files[manifest[i]], key, 0) == Hit(v)
    requires MissesAbove(manifest, files, key, i, |manifest| - 2)
    ensures SstValue(manifest, files, key) == Ok(v)
    ensures IntendedAnswer(map[], manifest, files, key) == Ok(Reply(v, true))
  {
    ScanPastNewer(manifest, files, key, i, |manifest| - 2);
  }

  /** A key that no openable written segment holds is reported not found. */
  lemma KeyInNoSegment(mem: map<string, string>, manifest: seq<string>, files: map<string, seq<Line>>, key: string)
    requires key !in mem
    requires MissesAbove(manifest, files, key, -1, |manifest| - 2)
    ensures SstValue(manifest, files, key) == Ok("")
    ensures Answer(mem, manifest, files, key) == Ok(Reply("", false))
  {
    if |manifest| >= 1 {
      ScanPastNewer(manifest, files, key, -1, |manifest| - 2);
    }
  }

  /** An undecodable record met before any match ends the lookup as a fatal failure. */
  lemma CorruptSegmentIsFatal(manifest: seq<string>, files: map<string, seq<Line>>, key: string, i: int)
    requires 0 <= i <= |manifest| - 2
    requires manifest[i] in files && ScanSegment(files[manifest[i]], key, 0) == Corrupt
    requires MissesAbove(manifest, files, key, i, |manifest| - 2)
    ensures SstValue(manifest, files, key) == Panic(CorruptRecord(manifest[i]))
  {
    ScanPastNewer(manifest, files, key, i, |manifest| - 2);
  }

  /**
   * A stored "" in the newest segment holding the key reads as not found,
   * and the older segments are not consulted.
   */
  lemma EmptySegmentValueReadsAbsent(mem: map<string, string>, manifest: seq<string>, files: map<string, seq<Line>>,
                                     key: string, i: int)
    requires key !in mem
    requires 0 <= i <= |manifest| - 2
    requires manifest[i] in files && ScanSegment(files[manifest[i]], key, 0) == Hit("")
    requires MissesAbove(manifest, files, key, i, |manifest| - 2)
    ensures Answer(mem, manifest, files, key) == Ok(Reply("", false))
  {
    NewestMatchWins(manifest, files, key, i, "");
  }

  /** The scan down from `i` depends only on the manifest lines 0 .. i and their files. */
  lemma {:induction false} ScanFrame(m: seq<string>, f: map<string, seq<Line>>, m': seq<string>, f': map<string, seq<Line>>,
                                     key: string, i: int)
    requires i < |m| && i < |m'|
    requires forall j :: 0 <= j <= i ==> m[j] == m'[j] && (m[j] in f <==> m[j] in f')
    requires forall j :: 0 <= j <= i && m[j] in f ==> f[m[j]] == f'[m[j]]
    ensures ScanSegments(m, f, key, i) == ScanSegments(m', f', key, i)
    decreases i
  {
    if i >= 0 {
      ScanFrame(m, f, m', f', key, i - 1);
    }
  }

  /** The reservation line is skipped: what its file holds never changes a lookup. */
  lemma ReservationNeverRead(manifest: seq<string>, files: map<string, seq<Line>>, key: string, content: seq<Line>)
    requires |manifest| >= 1
    requires manifest[|manifest| - 1] !in manifest[..|manifest| - 1]
    ensures SstValue(manifest, files[manifest[|manifest| - 1] := content], key) == SstValue(manifest, files, key)
  {
    var r := manifest[|manifest| - 1];
    forall j | 0 <= j <= |manifest| - 2 ensures manifest[j] != r {
      assert manifest[..|manifest| - 1][j] == manifest[j];
    }
    ScanFrame(manifest, files, manifest, files[r := content], key, |manifest| - 2);
  }

  /**
   * A flush of `mem` into the reserved segment `sst-{n}.json`, followed by
   * the new reservation, shadows the older segments exactly with `mem`.
   */
  lemma FlushPreservesSstValue(mem: map<string, string>, n: int, files: map<string, seq<Line>>, seg: seq<Line>, key: string)
    requires n >= 1
    requires IsSegmentOf(seg, mem)
    ensures ScanSegments(ManifestFor(n + 1), files[SstName(n) := seg], key, n - 1)
            == if key in mem then Ok(Some(mem[key])) else ScanSegments(ManifestFor(n), files, key, n - 2)
  {
    var m, m' := ManifestFor(n), ManifestFor(n + 1);
    var f' := files[SstName(n) := seg];
    assert m'[n - 1] == SstName(n);
    ScanSegmentOf(seg, mem, key);
    if key !in mem {
      forall j | 0 <= j <= n - 2 ensures m[j] == m'[j] && m[j] != SstName(n) {
        ManifestNamesDistinct(n + 1, j, n - 1);
      }
      ScanFrame(m, files, m', f', key, n - 2);
    }
  }

  /** How every read answers after a successful flush of `mem`. */
  lemma FlushAnswers(mem: map<string, string>, n: int, files: map<string, seq<Line>>, seg: seq<Line>, key: string)
    requires n >= 1
    requires IsSegmentOf(seg, mem)
    ensures Answer(map[], ManifestFor(n + 1), files[SstName(n) := seg], key)
            == if key in mem then Ok(Reply(mem[key], mem[key] != "")) else Answer(mem, ManifestFor(n), files, key)
    ensures IntendedAnswer(map[], ManifestFor(n + 1), files[SstName(n) := seg], key)
            == IntendedAnswer(mem, ManifestFor(n), files, key)
  {
    FlushPreservesSstValue(mem, n, files, seg, key);
  }

  /** A flush loses no entry: every key whose value is not "" reads the same before and after. */
  lemma FlushPreservesAnswer(mem: map<string, string>, n: int, files: map<string, seq<Line>>, seg: seq<Line>, key: string)
    requires n >= 1
    requires IsSegmentOf(seg, mem)
    requires key in mem ==> mem[key] != ""
    ensures Answer(map[], ManifestFor(n + 1), files[SstName(n) := seg], key) == Answer(mem, ManifestFor(n), files, key)
  {
    FlushAnswers(mem, n, files, seg, key);
  }

  /** As written, a key holding "" is found before a flush and not found after it. */
  lemma FlushHidesEmptyValue(mem: map<string, string>, n: int, files: map<string, seq<Line>>, seg: seq<Line>, key: string)
    requires n >= 1
    requires IsSegmentOf(seg, mem)
    requires key in mem && mem[key] == ""
    ensures Answer(mem, ManifestFor(n), files, key) == Ok(Reply("", true))
    ensures Answer(map[], ManifestFor(n + 1), files[SstName(n) := seg], key) == Ok(Reply("", false))
  {
    FlushAnswers(mem, n, files, seg, key);
  }

  /** With the intended reading, a flush changes no answer at all. */
  lemma FlushPreservesIntendedAnswer(mem: map<string, string>, n: int, files: map<string, seq<Line>>, seg: seq<Line>, key: string)
    requires n >= 1
    requires IsSegmentOf(seg, mem)
    ensures IntendedAnswer(map[], ManifestFor(n + 1), files[SstName(n) := seg], key)
            == IntendedAnswer(mem, ManifestFor(n), files, key)
  {
    FlushAnswers(mem, n, files, seg, key);
  }

  /**
   * The state change of persistMemTable from memtable `mem`, counter
   * `next`, manifest and files, to the primed ones, with result `r`.
   */
  ghost predicate FlushedTo(mem: map<string, string>, next: int, manifest: seq<string>, files: map<string, seq<Line>>,
                            env: FlushEnv, r: Outcome<()>,
                            mem': map<string, string>, next': int, manifest': seq<string>, files': map<string, seq<Line>>)
  {
    var name := SstName(next);
    if !env.createOk then
      r == Panic(CreateFailed(name)) && mem' == mem && next' == next && manifest' == manifest && files' == files
    else if !Fits(0, |mem|, env.room) || !env.syncOk then
      && r == Panic(PersistFailed(name)) && mem' == mem && next' == next && manifest' == manifest
      && name in files' && files' == files[name := files'[name]]
      && IsSegmentPrefixOf(files'[name], mem)
      && |files'[name]| == (if Fits(0, |mem|, env.room) then |mem| else env.room)
      && (Fits(0, |mem|, env.room) ==> IsSegmentOf(files'[name], mem))
    else
      && mem' == map[]
      && name in files' && files' == files[name := files'[name]] && IsSegmentOf(files'[name], mem)
      && manifest' == manifest + [SstName(next + 1)]
      && (if env.manifestSyncOk then r == Ok(()) && next' == next + 1
          else r == Panic(ManifestSyncFailed) && next' == next)
  }

  /** A successful flush keeps the manifest equal to ManifestFor(next). */
  lemma FlushKeepsManifest(mem: map<string, string>, next: int, manifest: seq<string>, files: map<string, seq<Line>>,
                           env: FlushEnv, r: Outcome<()>,
                           mem': map<string, string>, next': int, manifest': seq<string>, files': map<string, seq<Line>>)
    requires FlushedTo(mem, next, manifest, files, env, r, mem', next', manifest', files')
    requires r.Ok? && next >= 1 && manifest == ManifestFor(next)
    ensures next' == next + 1 && manifest' == ManifestFor(next')
  {
    ManifestGrows(next);
  }

  /**
   * A flush whose manifest Sync fails has already appended the next
   * reservation and emptied the memtable, but keeps the counter: the
   * manifest no longer ends with sst-{next}.json. The next successful
   * flush, of whatever memtable `mem2` the puts in between built, re-creates
   * sst-{next}.json over the segment just written, so a key that only that
   * segment held is found after the first flush and lost after the second.
   */
  lemma ManifestSyncFailureReusesName(mem: map<string, string>, next: int, manifest: seq<string>, files: map<string, seq<Line>>,
                                      env: FlushEnv, r: Outcome<()>,
                                      mem': map<string, string>, next': int, manifest': seq<string>, files': map<string, seq<Line>>,
                                      mem2: map<string, string>, env': FlushEnv, r': Outcome<()>,
                                      mem'': map<string, string>, next'': int, manifest'': seq<string>, files'': map<string, seq<Line>>,
                                      key: string)
    requires next >= 1 && manifest == ManifestFor(next)
    requires FlushedTo(mem, next, manifest, files, env, r, mem', next', manifest', files')
    requires r == Panic(ManifestSyncFailed)
    requires FlushedTo(mem2, next', manifest', files', env', r', mem'', next'', manifest'', files'')
    requires r'.Ok?
    requires key in mem && mem[key] != "" && key !in mem2
    requires SstName(next + 1) !in files
    requires MissesAbove(manifest, files, key, -1, next - 2)
    ensures mem' == map[] && next' == next && manifest' == ManifestFor(next + 1) && manifest' != ManifestFor(next')
    ensures IsSegmentOf(files'[SstName(next)], mem)
    ensures IsSegmentOf(files''[SstName(next)], mem2)
    ensures next'' == next + 1 && manifest'' == ManifestFor(next + 1) + [SstName(next + 1)]
    ensures Answer(mem', manifest', files', key) == Ok(Reply(mem[key], true))
    ensures Answer(mem'', manifest'', files'', key) == Ok(Reply("", false))
  {
    ManifestGrows(next);
    assert |manifest'| == next + 1;
    var name := SstName(next);
    assert files' == files[name := files'[name]];
    FlushAnswers(mem, next, files, files'[name], key);
    var seg2 := files''[name];
    assert files'' == files[name := seg2];
    ScanSegmentOf(seg2, mem2, key);
    if SstName(next + 1) == name {
      SstNameInjective(next + 1, next);
    }
    forall j | -1 < j <= next && 0 <= j
      ensures manifest''[j] !in files'' || ScanSegment(files''[manifest''[j]], key, 0) == Miss
    {
      if j <= next - 2 {
        assert manifest''[j] == manifest[j];
        ManifestNamesDistinct(next + 1, j, next - 1);
        assert ManifestFor(next + 1)[j] == manifest[j];
      }
    }
    KeyInNoSegment(mem'', manifest'', files'', key);
  }

  class Engine {
    const store: MemTable
    var next: int
    var manifest: seq<string>
    var files: map<string, seq<Line>>

    /** Between calls the memtable holds fewer keys than the threshold. */
    ghost predicate BelowThreshold()
      reads this, store
    {
      |store.store| < FlushThreshold
    }

    /** The manifest lists segments 1 .. next-1 and ends with the reservation sst-{next}.json. */
    ghost predicate ManifestInvariant()
      reads this
    {
      next >= 1 && manifest == ManifestFor(next)
    }

    /** NewStorageEngine: an empty memtable over the given counter and data directory. */
    constructor (next: int, manifest: seq<string>, files: map<string, seq<Line>>)
      ensures fresh(store) && store.store == map[]
      ensures this.next == next && this.manifest == manifest && this.files == files
      ensures BelowThreshold()
    {
      store := new MemTable();
      this.next := next;
      this.manifest := manifest;
      this.files := files;
    }

    /** The engine logic of GetHandler. */
    method Get(key: string) returns (r: Outcome<Reply>)
      ensures r == Answer(store.store, manifest, files, key)
      ensures key in store.store ==> r == Ok(Reply(store.store[key], true))
    {
      var (value, ok) := store.Get(key);
      if ok {
        return Ok(Reply(value, true));
      }
      var sst := GetFromSst(key);
      match sst
      case Ok(v) => r := Ok(Reply(v, v != ""));
      case Panic(c) => r := Panic(c);
    }

    /** getKeyFromSST */
    method GetFromSst(key: string) returns (r: Outcome<string>)
      ensures r == SstValue(manifest, files, key)
    {
      var sstFiles: seq<string> := [];
      for j := 0 to |manifest|
        invariant sstFiles == manifest[..j]
      {
        sstFiles := sstFiles + [manifest[j]];
      }
      assert sstFiles == manifest;

      var i := |sstFiles| - 2;
      while i >= 0
        invariant -2 <= i <= |manifest| - 2
        invariant ScanSegments(manifest, files, key, |manifest| - 2) == ScanSegments(manifest, files, key, i)
        decreases i + 2
      {
        var name := sstFiles[i];
        if name in files {
          var lines := files[name];
          var j := 0;
          while j < |lines|
            invariant 0 <= j <= |lines|
            invariant ScanSegment(lines, key, 0) == ScanSegment(lines, key, j)
          {
            match Decode(lines[j])
            case None =>
              return Panic(CorruptRecord(name));
            case Some(e) =>
              if e.key == key {
                return Ok(e.value);
              }
            j := j + 1;
          }
        }
        i := i - 1;
      }
      return Ok("");
    }

    /** The engine logic of PutHandler: insert, then flush at the threshold. */
    method Put(key: string, value: string, env: FlushEnv) returns (r: Outcome<()>)
      modifies this, store
      ensures var mem := old(store.store)[key := value];
        if |mem| < FlushThreshold then
          r == Ok(()) && store.store == mem && next == old(next) && manifest == old(manifest) && files == old(files)
        else
          FlushedTo(mem, old(next), old(manifest), old(files), env, r, store.store, next, manifest, files)
      ensures r.Ok? ==> BelowThreshold()
      ensures r.Ok? && old(ManifestInvariant()) ==> ManifestInvariant()
      ensures r.Ok? && old(ManifestInvariant()) ==>
        Answer(store.store, manifest, files, key) == Ok(Reply(value, value != "" || key in store.store))
      ensures r.Ok? && old(ManifestInvariant()) ==>
        forall k :: k != key && (k in old(store.store) ==> old(store.store)[k] != "") ==>
          Answer(store.store, manifest, files, k) == Answer(old(store.store), old(manifest), old(files), k)
    {
      ghost var mem0, next0, manifest0, files0 := store.store, next, manifest, files;
      store.Put(key, value);
      r := Ok(());
      if store.Size() >= FlushThreshold {
        ghost var mem := store.store;
        r := PersistMemTable(env);
        if r.Ok? && next0 >= 1 && manifest0 == ManifestFor(next0) {
          FlushKeepsManifest(mem, next0, manifest0, files0, env, r, store.store, next, manifest, files);
          var seg := files[SstName(next0)];
          assert files == files0[SstName(next0) := seg];
          FlushAnswers(mem, next0, files0, seg, key);
          forall k | k != key && (k in mem0 ==> mem0[k] != "")
            ensures Answer(store.store, manifest, files, k) == Answer(mem0, manifest0, files0, k)
          {
            FlushAnswers(mem, next0, files0, seg, k);
          }
        }
      }
    }

    /** persistMemTable */
    method PersistMemTable(env: FlushEnv) returns (r: Outcome<()>)
      modifies this, store
      ensures FlushedTo(old(store.store), old(next), old(manifest), old(files), env, r, store.store, next, manifest, files)
    {
      var name := SstName(next);
      if !env.createOk {
        return Panic(CreateFailed(name));
      }
      var f := new SegmentFile(env.room, env.syncOk);
      var ok := store.Persist(f);
      files := files[name := f.lines];
      if !ok {
        return Panic(PersistFailed(name));
      }
      manifest := manifest + [SstName(next + 1)];
      if !env.manifestSyncOk {
        return Panic(ManifestSyncFailed);
      }
      next := next + 1;
      r := Ok(());
    }
  }
}
