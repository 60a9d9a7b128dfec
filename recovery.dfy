/**
 * Start-up of the Go server (go-kv/server/main.go): create a fresh data
 * directory with its first reservation, or recover the segment counter
 * from an existing manifest.
 */
module Recovery {
  import opened Failures
  import opened SstNames
  import opened Segments
  import opened Engines

  /**
   * The data directory as start-up finds it: missing (with whether Mkdir,
   * the creation of manifest.txt and the write of its first line succeed),
   * or present (with the lines of its manifest, None when it cannot be
   * opened).
   */
  datatype DataDir = Missing(mkdirOk: bool, createOk: bool, writeOk: bool) | Present(manifest: Option<seq<string>>)

  /** What start-up hands to the engine: the counter and the manifest lines. */
  datatype Boot = Boot(next: int, manifest: seq<string>)

  /**
   * The counter after the scan of the manifest: the number of the last line
   * that Sscanf("sst-%d.json") accepts, or 0 (Go's zero value) if none does.
   */
  function RecoveredNumber(lines: seq<string>): (n: int)
    decreases |lines|
  {
    if lines == [] then 0
    else
      match ScanSstNumber(lines[|lines| - 1])
      case Some(n) => n
      case None => RecoveredNumber(lines[..|lines| - 1])
  }

  /** The last accepted line decides the counter; later lines that do not scan leave it alone. */
  lemma {:induction false} LastScannedLineWins(lines: seq<string>, i: int, n: int)
    requires 0 <= i < |lines|
    requires ScanSstNumber(lines[i]) == Some(n)
    requires forall j :: i < j < |lines| ==> ScanSstNumber(lines[j]).None?
    ensures RecoveredNumber(lines) == n
    decreases |lines|
  {
    if i < |lines| - 1 {
      var p := lines[..|lines| - 1];
      assert p[i] == lines[i];
      forall j | i < j < |p| ensures ScanSstNumber(p[j]).None? {
        assert p[j] == lines[j];
      }
      LastScannedLineWins(p, i, n);
    }
  }

  /** With no accepted line, including an empty manifest, the counter stays 0. */
  lemma {:induction false} NoScannedLine(lines: seq<string>)
    requires forall j :: 0 <= j < |lines| ==> ScanSstNumber(lines[j]).None?
    ensures RecoveredNumber(lines) == 0
    decreases |lines|
  {
    if lines != [] {
      var p := lines[..|lines| - 1];
      forall j | 0 <= j < |p| ensures ScanSstNumber(p[j]).None? {
        assert p[j] == lines[j];
      }
      NoScannedLine(p);
    }
  }

  /**
   * Restart after any number of flushes: the manifest ManifestFor(n)
   * gives back the counter n the engine had.
   */
  lemma RecoverAfterFlushes(n: int)
    requires 1 <= n <= Int64Max
    ensures RecoveredNumber(ManifestFor(n)) == n
  {
    ScanSstName(n);
  }

  /**
   * When the first manifest line was never written, the first flush leaves
   * the manifest as the bare reservation sst-2.json, so the segment it wrote
   * is never consulted and every key reads as not found.
   */
  lemma UnwrittenManifestLosesFirstFlush(mem: map<string, string>, files: map<string, seq<Line>>, env: FlushEnv,
                                         mem': map<string, string>, next': int, manifest': seq<string>, files': map<string, seq<Line>>,
                                         key: string)
    requires FlushedTo(mem, 1, [], files, env, Ok(()), mem', next', manifest', files')
    ensures next' == 2 && manifest' == [SstName(2)]
    ensures IsSegmentOf(files'[SstName(1)], mem)
    ensures Answer(mem', manifest', files', key) == Ok(Reply("", false))
  {
  }

  /** The start-up sequence of main, up to NewStorageEngine. */
  method Bootstrap(dir: DataDir) returns (r: Outcome<Boot>)
    ensures dir.Missing? ==>
      r == if !dir.mkdirOk then Panic(MkdirFailed)
           else if !dir.createOk then Panic(ManifestCreateFailed)
           else if !dir.writeOk then Ok(Boot(1, []))
           else Ok(Boot(1, ["sst-1.json"]))
    ensures dir.Present? ==>
      r == if dir.manifest.None? then Panic(ManifestOpenFailed)
           else Ok(Boot(RecoveredNumber(dir.manifest.value), dir.manifest.value))
    ensures r.Ok? && dir.Missing? && dir.writeOk ==> r.value.manifest == ManifestFor(r.value.next)
  {
    match dir
    case Missing(mkdirOk, createOk, writeOk) =>
      if !mkdirOk {
        return Panic(MkdirFailed);
      }
      if !createOk {
        return Panic(ManifestCreateFailed);
      }
      if !writeOk {
        // the error of WriteString is not checked: the server starts anyway
        return Ok(Boot(1, []));
      }
      FreshManifest();
      return Ok(Boot(1, ["sst-1.json"]));
    case Present(None) =>
      return Panic(ManifestOpenFailed);
    case Present(Some(lines)) =>
      var next := 0;
      for i := 0 to |lines|
        invariant next == RecoveredNumber(lines[..i])
      {
        assert lines[..i + 1][..i] == lines[..i];
        match ScanSstNumber(lines[i])
        case Some(n) =>
          next := n;
        case None =>
      }
      assert lines[..|lines|] == lines;
      return Ok(Boot(next, lines));
  }
}
