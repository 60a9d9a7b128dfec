/**
 * Segment (SST) files: their records, the sorted-dump shape a flush gives
 * them, and the linear scan that finds a key in one of them.
 */
module Segments {
  import opened Failures
  import opened KeyOrder

  /** One key/value record, the Go `LogEntry`. */
  datatype LogEntry = LogEntry(key: string, value: string)

  /**
   * One line of a segment file. The JSON text is abstracted: a line is
   * either the encoding of a record or text that does not decode.
   */
  datatype Line = Record(entry: LogEntry) | Garbled(text: string)

  /** json.Encoder.Encode of one record: one line. */
  function Encode(e: LogEntry): (l: Line) {
    Record(e)
  }

  /** json.Unmarshal of one line. */
  function Decode(l: Line): (r: Option<LogEntry>) {
    match l
    case Record(e) => Some(e)
    case Garbled(_) => None
  }

  /**
   * Every line is a record of `m` (a key of `m` with its value) and the
   * keys go strictly up.
   */
  ghost predicate RecordsOf(lines: seq<Line>, m: map<string, string>) {
    && (forall i :: 0 <= i < |lines| ==>
          lines[i].Record? && lines[i].entry.key in m && m[lines[i].entry.key] == lines[i].entry.value)
    && (forall i, j :: 0 <= i < j < |lines| && lines[i].Record? && lines[j].Record? ==>
          Less(lines[i].entry.key, lines[j].entry.key))
  }

  /** `lines` is the sorted dump of `m`: one record per key, ascending. */
  ghost predicate IsSegmentOf(lines: seq<Line>, m: map<string, string>) {
    && RecordsOf(lines, m)
    && (forall k :: k in m ==> exists i :: 0 <= i < |lines| && lines[i].Record? && lines[i].entry.key == k)
  }

  /**
   * `lines` is a prefix of the sorted dump of `m`: records of `m`, ascending,
   * with no key of `m` skipped below the last key written.
   */
  ghost predicate IsSegmentPrefixOf(lines: seq<Line>, m: map<string, string>) {
    && RecordsOf(lines, m)
    && (forall k, i :: k in m && 0 <= i < |lines| && Less(k, lines[i].entry.key) ==>
          exists j :: 0 <= j < i && lines[j].entry.key == k)
  }

  /** The lines written for `keys`, in that order, each with its value in `m`. */
  function RecordLines(m: map<string, string>, keys: seq<string>): (lines: seq<Line>)
    requires forall k :: k in keys ==> k in m
  {
    seq(|keys|, i requires 0 <= i < |keys| => Encode(LogEntry(keys[i], m[keys[i]])))
  }

  /** Writing strictly ascending keys of `m` gives records of `m`. */
  lemma RecordLinesAscending(m: map<string, string>, keys: seq<string>)
    requires forall k :: k in keys ==> k in m
    requires StrictlySorted(keys)
    ensures RecordsOf(RecordLines(m, keys), m)
  {
  }

  /** Writing every key of `m` once, ascending, gives the segment of `m`. */
  lemma RecordLinesComplete(m: map<string, string>, keys: seq<string>)
    requires forall k :: k in keys <==> k in m
    requires StrictlySorted(keys)
    ensures IsSegmentOf(RecordLines(m, keys), m)
  {
    var lines := RecordLines(m, keys);
    forall k | k in m ensures exists i :: 0 <= i < |lines| && lines[i].Record? && lines[i].entry.key == k {
      var i :| 0 <= i < |keys| && keys[i] == k;
      assert lines[i].entry.key == k;
    }
  }

  /**
   * The first n records written for the ascending list of every key of `m`
   * are a prefix of the segment of `m`.
   */
  lemma RecordLinesPrefix(m: map<string, string>, keys: seq<string>, n: nat)
    requires forall k :: k in keys <==> k in m
    requires StrictlySorted(keys)
    requires n <= |keys|
    ensures IsSegmentPrefixOf(RecordLines(m, keys[..n]), m)
  {
    var lines := RecordLines(m, keys[..n]);
    RecordLinesAscending(m, keys[..n]);
    forall k, i | k in m && 0 <= i < |lines| && Less(k, lines[i].entry.key)
      ensures exists j :: 0 <= j < i && lines[j].entry.key == k
    {
      var j :| 0 <= j < |keys| && keys[j] == k;
      assert lines[i].entry.key == keys[i];
      if j >= i {
        if j == i {
          LessIrreflexive(k);
        } else {
          LessAsymmetric(keys[i], keys[j]);
        }
        assert false;
      }
      assert lines[j].entry.key == k;
    }
  }

  /** The segment of a map is unique: flushing the same contents always writes the same file. */
  lemma {:induction false} SegmentUnique(a: seq<Line>, b: seq<Line>, m: map<string, string>)
    requires IsSegmentOf(a, m) && IsSegmentOf(b, m)
    ensures a == b
    decreases |a|
  {
    if |a| > 0 {
      assert a[0].entry.key in m;
      SegmentHeadsAgree(a, b, m);
      ShrinkSegment(a, m);
      ShrinkSegment(b, m);
      SegmentUnique(a[1..], b[1..], m - {a[0].entry.key});
      assert a == [a[0]] + a[1..] && b == [b[0]] + b[1..];
    }
  }

  /** Two non-empty segments of one map start with the same record, that of its least key. */
  lemma SegmentHeadsAgree(a: seq<Line>, b: seq<Line>, m: map<string, string>)
    requires IsSegmentOf(a, m) && IsSegmentOf(b, m) && |a| > 0 && |b| > 0
    ensures a[0] == b[0]
  {
    var ka, kb := a[0].entry.key, b[0].entry.key;
    if ka != kb {
      assert ka in m && kb in m;
      var j :| 0 <= j < |b| && b[j].Record? && b[j].entry.key == ka;
      var i :| 0 <= i < |a| && a[i].Record? && a[i].entry.key == kb;
      assert Less(kb, ka) && Less(ka, kb);
      LessAsymmetric(ka, kb);
    }
  }

  /** Dropping the first (smallest) record leaves the segment of the rest of the map. */
  lemma ShrinkSegment(a: seq<Line>, m: map<string, string>)
    requires IsSegmentOf(a, m) && |a| > 0
    ensures IsSegmentOf(a[1..], m - {a[0].entry.key})
  {
    var k0 := a[0].entry.key;
    var t := a[1..];
    var m' := m - {k0};
    forall i | 0 <= i < |t| ensures t[i].Record? && t[i].entry.key in m' && m'[t[i].entry.key] == t[i].entry.value {
      assert t[i] == a[i + 1];
      assert Less(k0, t[i].entry.key);
      LessIrreflexive(k0);
    }
    forall k | k in m' ensures exists i :: 0 <= i < |t| && t[i].Record? && t[i].entry.key == k {
      var i :| 0 <= i < |a| && a[i].Record? && a[i].entry.key == k;
      assert i > 0;
      assert t[i - 1] == a[i];
    }
  }

  /** What scanning one segment for a key finds. */
  datatype Probe = Hit(value: string) | Miss | Corrupt

  /**
   * The inner loop of getKeyFromSST from line `j` on: the first record
   * whose key equals `key` exactly; a line that does not decode stops the
   * scan as corrupt.
   */
  function ScanSegment(lines: seq<Line>, key: string, j: nat): (p: Probe)
    decreases |lines| - j
  {
    if j >= |lines| then Miss
    else
      match Decode(lines[j])
      case None => Corrupt
      case Some(e) => if e.key == key then Hit(e.value) else ScanSegment(lines, key, j + 1)
  }

  /** The scan returns the value of the first matching record when every line before it decodes. */
  lemma {:induction false} ScanFindsFirstMatch(lines: seq<Line>, key: string, j: nat, i: nat)
    requires j <= i < |lines|
    requires lines[i].Record? && lines[i].entry.key == key
    requires forall p :: j <= p < i ==> lines[p].Record? && lines[p].entry.key != key
    ensures ScanSegment(lines, key, j) == Hit(lines[i].entry.value)
    decreases i - j
  {
    if j < i {
      ScanFindsFirstMatch(lines, key, j + 1, i);
    }
  }

  /** The scan misses when every line from `j` on decodes to another key. */
  lemma {:induction false} ScanMisses(lines: seq<Line>, key: string, j: nat)
    requires forall p :: j <= p < |lines| ==> lines[p].Record? && lines[p].entry.key != key
    ensures ScanSegment(lines, key, j) == Miss
    decreases |lines| - j
  {
    if j < |lines| {
      ScanMisses(lines, key, j + 1);
    }
  }

  /** Scanning the segment of `m` answers exactly as looking the key up in `m`. */
  lemma ScanSegmentOf(lines: seq<Line>, m: map<string, string>, key: string)
    requires IsSegmentOf(lines, m)
    ensures ScanSegment(lines, key, 0) == if key in m then Hit(m[key]) else Miss
  {
    if key in m {
      var i :| 0 <= i < |lines| && lines[i].Record? && lines[i].entry.key == key;
      forall p | 0 <= p < i ensures lines[p].Record? && lines[p].entry.key != key {
        assert Less(lines[p].entry.key, lines[i].entry.key);
        LessIrreflexive(key);
      }
      ScanFindsFirstMatch(lines, key, 0, i);
    } else {
      ScanMisses(lines, key, 0);
    }
  }
}
