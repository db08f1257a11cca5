/**
 * The batch driver of `main`: the early exit on an empty work set, the y/N
 * confirmation gate, and the loop that transcribes each scheduled file and
 * writes its transcript, sorting every file into "processed" or "failed".
 *
 * The speech engine and the disk are oracles. The engine is asked once per
 * scheduled file, before the output file is opened; the disk decides, for
 * each opened output file, whether opening fails or how much of what was
 * written survives an exception raised inside the `with` block.
 */
module Batch {
  import opened Wrappers
  import opened Paths
  import opened Sanitizer
  import opened Sequences
  import opened WorkSet

  /** One engine segment; the `:.2f`-formatted timestamps are kept as text. */
  datatype Segment = Segment(start: string, end: string, text: string)

  /** What `model.transcribe` does: return segments, or raise with message `str(e)`. */
  datatype Transcription = Transcribed(segments: seq<Segment>) | EngineFailed(message: string)

  /**
   * What happens to an output file: it opens and takes every write; or `open`
   * raises and nothing is touched; or an exception is raised inside the `with`
   * block after the first `kept` characters reached the file.
   */
  datatype Sink = Accepts | OpenFails(message: string) | FailsAfter(kept: nat, message: string)

  datatype FileOutcome = Done | Failed(message: string)

  /**
   * The outside world of one run: the `--language` option, the engine and the
   * disk. Both oracles see the position of the file in the work set, so a
   * failure can depend on the attempt and not only on the path; `sink(i)` is
   * how the disk treats the output file that attempt number `i` opens.
   */
  datatype Env = Env(
    language: Option<string>,
    transcribe: (nat, string, Option<string>) -> Transcription,
    sink: nat -> Sink)

  // ---------------------------------------------------------------------------
  // The transcript file.
  // ---------------------------------------------------------------------------

  /** `'=' * n`. */
  function Equals(n: nat): string {
    seq(n, i => '=')
  }

  const RULE: string := Equals(50)

  function HeaderLines(name: string): seq<string> {
    [RULE + "\n", "filename:" + name + "\n", RULE + "\n"]
  }

  function SegmentLine(s: Segment): string {
    "[" + s.start + "s - " + s.end + "s] " + s.text + "\n"
  }

  /** The lines of the `for segment` loop, one per segment, in engine order. */
  function SegmentLines(segments: seq<Segment>): seq<string> {
    seq(|segments|, i requires 0 <= i < |segments| => SegmentLine(segments[i]))
  }

  /** Every `f.write` of one transcript, in order. */
  function TranscriptLines(name: string, segments: seq<Segment>): seq<string> {
    HeaderLines(name) + SegmentLines(segments)
  }

  /** What a sequence of writes puts in a fresh file. */
  function Concat(lines: seq<string>): string {
    if lines == [] then [] else Concat(lines[..|lines| - 1]) + lines[|lines| - 1]
  }

  lemma {:induction false} ConcatAppend(a: seq<string>, b: seq<string>)
    ensures Concat(a + b) == Concat(a) + Concat(b)
    decreases |b|
  {
    if b == [] {
      assert a + b == a;
    } else {
      var n := |b| - 1;
      assert (a + b)[..|a + b| - 1] == a + b[..n];
      ConcatAppend(a, b[..n]);
    }
  }

  /** The separator line is 50 `=`. */
  lemma RuleShape()
    ensures |RULE| == 50 && forall i :: 0 <= i < 50 ==> RULE[i] == '='
  {
  }

  /** A transcript is the three header lines followed by one line per segment. */
  lemma TranscriptLayout(name: string, segments: seq<Segment>)
    ensures Concat(TranscriptLines(name, segments))
        == RULE + "\n" + "filename:" + name + "\n" + RULE + "\n" + Concat(SegmentLines(segments))
    ensures |RULE| == 50 && forall i :: 0 <= i < 50 ==> RULE[i] == '='
  {
    RuleShape();
    HeaderConcat(RULE, name);
    ConcatAppend(HeaderLines(name), SegmentLines(segments));
  }

  /** The three header writes, for any separator line. */
  lemma HeaderConcat(rule: string, name: string)
    ensures Concat([rule + "\n", "filename:" + name + "\n", rule + "\n"])
         == rule + "\n" + "filename:" + name + "\n" + rule + "\n"
  {
    var h := [rule + "\n", "filename:" + name + "\n", rule + "\n"];
    assert h[..2][..1][..0] == [];
    assert h[..2][..1] == [rule + "\n"];
    assert h[..2] == [rule + "\n", "filename:" + name + "\n"];
    assert Concat(h[..2][..1]) == rule + "\n";
    assert Concat(h[..2]) == rule + "\n" + ("filename:" + name + "\n");
    assert Concat(h) == rule + "\n" + ("filename:" + name + "\n") + (rule + "\n");
  }

  /** The longest prefix of `content` that has at most `k` characters. */
  function Prefix(content: string, k: nat): (r: string)
    ensures r <= content && |r| == if k < |content| then k else |content|
  {
    if k < |content| then content[..k] else content
  }

  /** The file store after writing `content` to `path` through `sink`. */
  function StoreAfterWrite(files: map<string, string>, path: string, content: string, sink: Sink): map<string, string> {
    match sink
    case Accepts => files[path := content]
    case OpenFails(_) => files
    case FailsAfter(k, _) => files[path := Prefix(content, k)]
  }

  /** The exception, if any, that writing through `sink` raises. */
  function WriteError(sink: Sink): Option<string> {
    match sink
    case Accepts => None
    case OpenFails(m) => Some(m)
    case FailsAfter(_, m) => Some(m)
  }

  /**
   * A write leaves the path alone or leaves a prefix of the content there; a
   * write that raises nothing leaves all of it, and every other path keeps
   * what it had.
   */
  lemma WriteOutcome(files: map<string, string>, path: string, content: string, sink: Sink)
    ensures var after := StoreAfterWrite(files, path, content, sink);
      && (sink.OpenFails? ==> after == files)
      && (!sink.OpenFails? ==> path in after && after[path] <= content)
      && (WriteError(sink) == None ==> path in after && after[path] == content)
      && (forall q :: q != path ==> (q in after <==> q in files) && (q in files ==> after[q] == files[q]))
  {
  }

  /** The files on disk, by path. */
  class FileStore {
    var files: map<string, string>

    constructor(initial: map<string, string>)
      ensures files == initial
    {
      files := initial;
    }

    /** `open(path, 'w')`: creates the file or truncates it. */
    method Open(path: string)
      modifies this
      ensures files == old(files)[path := []]
    {
      files := files[path := []];
    }

    /** `f.write(text)` on an open file. */
    method Append(path: string, text: string)
      requires path in files
      modifies this
      ensures files == old(files)[path := old(files)[path] + text]
    {
      files := files[path := files[path] + text];
    }
  }

  lemma ConcatSnoc(lines: seq<string>, i: int)
    requires 0 <= i < |lines|
    ensures Concat(lines[..i + 1]) == Concat(lines[..i]) + lines[i]
  {
    assert lines[..i + 1][..i] == lines[..i];
  }

  /** What the first `i` writes put in the file is a prefix of the whole. */
  lemma ConcatPrefix(lines: seq<string>, i: int)
    requires 0 <= i <= |lines|
    ensures Concat(lines[..i]) <= Concat(lines)
  {
    assert lines == lines[..i] + lines[i..];
    ConcatAppend(lines[..i], lines[i..]);
  }

  /** A write that stops inside line `i` leaves the first `k` characters of the whole. */
  lemma PartialWrite(lines: seq<string>, i: int, k: nat)
    requires 0 <= i < |lines|
    requires |Concat(lines[..i])| <= k < |Concat(lines[..i])| + |lines[i]|
    ensures Concat(lines[..i]) + lines[i][..k - |Concat(lines[..i])|] == Prefix(Concat(lines), k)
  {
    var done := Concat(lines[..i]);
    ConcatSnoc(lines, i);
    ConcatPrefix(lines, i + 1);
    assert done + lines[i][..k - |done|] == (done + lines[i])[..k];
  }

  /**
   * Lines 118-127: open the output file and write the lines one by one. The
   * store ends as `StoreAfterWrite` says and the raised message is returned.
   */
  method WriteTranscript(fs: FileStore, path: string, lines: seq<string>, sink: Sink) returns (error: Option<string>)
    modifies fs
    ensures fs.files == StoreAfterWrite(old(fs.files), path, Concat(lines), sink)
    ensures error == WriteError(sink)
  {
    if sink.OpenFails? {
      return Some(sink.message);
    }
    fs.Open(path);
    var written := 0;
    for i := 0 to |lines|
      invariant fs.files == old(fs.files)[path := Concat(lines[..i])]
      invariant written == |Concat(lines[..i])|
      invariant sink.FailsAfter? ==> written <= sink.kept
    {
      var line := lines[i];
      if sink.FailsAfter? && written + |line| > sink.kept {
        var part := line[..sink.kept - written];
        fs.Append(path, part);
        PartialWrite(lines, i, sink.kept);
        return Some(sink.message);
      }
      fs.Append(path, line);
      ConcatSnoc(lines, i);
      written := written + |line|;
    }
    assert lines[..|lines|] == lines;
    if sink.FailsAfter? {
      return Some(sink.message);
    }
    return None;
  }

  // ---------------------------------------------------------------------------
  // The loop over the work set (lines 100-132).
  // ---------------------------------------------------------------------------

  /** Lines 108-110: the transcript of `audioPath` goes next to it in `dir`. */
  function OutputPath(dir: string, audioPath: string): string {
    Join(dir, SanitizeFilename(SplitExt(Basename(audioPath)).0 + ".txt"))
  }

  /** The result of attempt number `i`, on `audioPath`. */
  function Attempt(dir: string, env: Env, i: nat, audioPath: string): FileOutcome {
    match env.transcribe(i, audioPath, env.language)
    case EngineFailed(m) => Failed(m)
    case Transcribed(_) =>
      match WriteError(env.sink(i))
      case None => Done
      case Some(m) => Failed(m)
  }

  /** The file store after attempt number `i`, on `audioPath`. */
  function AttemptStore(dir: string, env: Env, i: nat, audioPath: string, files: map<string, string>): map<string, string> {
    match env.transcribe(i, audioPath, env.language)
    case EngineFailed(_) => files
    case Transcribed(segments) =>
      var out := OutputPath(dir, audioPath);
      StoreAfterWrite(files, out, Concat(TranscriptLines(Basename(out), segments)), env.sink(i))
  }

  /** `processed_files` after the loop over `work`. */
  function Processed(dir: string, env: Env, work: seq<string>): seq<string> {
    if work == [] then []
    else
      var n := |work| - 1;
      Processed(dir, env, work[..n]) + if Attempt(dir, env, n, work[n]).Done? then [work[n]] else []
  }

  /** `failed_files` after the loop over `work`. */
  function Failures(dir: string, env: Env, work: seq<string>): seq<(string, string)> {
    if work == [] then []
    else
      var n := |work| - 1;
      var outcome := Attempt(dir, env, n, work[n]);
      Failures(dir, env, work[..n]) + if outcome.Failed? then [(work[n], outcome.message)] else []
  }

  /** The file store after the loop over `work`. */
  function StoreAfter(dir: string, env: Env, work: seq<string>, files: map<string, string>): map<string, string> {
    if work == [] then files
    else
      var n := |work| - 1;
      AttemptStore(dir, env, n, work[n], StoreAfter(dir, env, work[..n], files))
  }

  /** One more attempt extends the three loop results by that attempt's outcome. */
  lemma LoopStep(dir: string, env: Env, work: seq<string>, i: int, files: map<string, string>)
    requires 0 <= i < |work|
    ensures Processed(dir, env, work[..i + 1])
         == Processed(dir, env, work[..i]) + if Attempt(dir, env, i, work[i]).Done? then [work[i]] else []
    ensures Failures(dir, env, work[..i + 1])
         == Failures(dir, env, work[..i]) + if Attempt(dir, env, i, work[i]).Failed? then [(work[i], Attempt(dir, env, i, work[i]).message)] else []
    ensures StoreAfter(dir, env, work[..i + 1], files)
         == AttemptStore(dir, env, i, work[i], StoreAfter(dir, env, work[..i], files))
  {
    assert work[..i + 1][..i] == work[..i];
  }

  /**
   * Lines 100-132: every file of the work set is attempted in order; a failing
   * file is recorded with its message and the loop goes on.
   */
  method ProcessFiles(fs: FileStore, dir: string, env: Env, work: seq<string>)
    returns (processed: seq<string>, failed: seq<(string, string)>)
    modifies fs
    ensures processed == Processed(dir, env, work)
    ensures failed == Failures(dir, env, work)
    ensures fs.files == StoreAfter(dir, env, work, old(fs.files))
  {
    processed, failed := [], [];
    for i := 0 to |work|
      invariant processed == Processed(dir, env, work[..i])
      invariant failed == Failures(dir, env, work[..i])
      invariant fs.files == StoreAfter(dir, env, work[..i], old(fs.files))
    {
      LoopStep(dir, env, work, i, old(fs.files));
      var audioFile := work[i];
      var filename := SplitExt(Basename(audioFile)).0;
      var sanitizedFilename := SanitizeFilename(filename + ".txt");
      var outputPath := Join(dir, sanitizedFilename);
      assert outputPath == OutputPath(dir, audioFile);
      var result := env.transcribe(i, audioFile, env.language);
      match result {
        case EngineFailed(m) =>
          failed := failed + [(audioFile, m)];
        case Transcribed(segments) =>
          var lines := TranscriptLines(Basename(outputPath), segments);
          var error := WriteTranscript(fs, outputPath, lines, env.sink(i));
          match error {
            case None =>
              processed := processed + [audioFile];
            case Some(m) =>
              failed := failed + [(audioFile, m)];
          }
      }
    }
    assert work[..|work|] == work;
  }

  // ---------------------------------------------------------------------------
  // What the loop promises.
  // ---------------------------------------------------------------------------

  /**
   * Every file of the work set ends in exactly one of `processed_files` and
   * `failed_files`, each list in work-set order.
   */
  lemma {:induction false} LoopOutcome(dir: string, env: Env, work: seq<string>)
    ensures Interleaves(Processed(dir, env, work), Firsts(Failures(dir, env, work)), work)
  {
    if work != [] {
      var n := |work| - 1;
      var init := work[..n];
      var x := work[n];
      LoopOutcome(dir, env, init);
      var done := Processed(dir, env, init);
      var failed := Failures(dir, env, init);
      var outcome := Attempt(dir, env, n, x);
      assert work == init + [x];
      if outcome.Done? {
        assert Processed(dir, env, work) == done + [x];
        assert Failures(dir, env, work) == failed;
        MergeStep(done, Firsts(failed), init, x, true);
      } else {
        var failed' := failed + [(x, outcome.message)];
        assert Processed(dir, env, work) == done;
        assert Failures(dir, env, work) == failed';
        assert Firsts(failed') == Firsts(failed) + [x];
        MergeStep(done, Firsts(failed), init, x, false);
      }
    }
  }

  /** A work set without repeats is split into two disjoint lists without repeats. */
  lemma LoopDistinct(dir: string, env: Env, work: seq<string>)
    requires Distinct(work)
    ensures Distinct(Processed(dir, env, work)) && Distinct(Firsts(Failures(dir, env, work)))
    ensures forall p :: p in Processed(dir, env, work) ==> p !in Firsts(Failures(dir, env, work))
    ensures |Processed(dir, env, work)| + |Failures(dir, env, work)| == |work|
  {
    LoopOutcome(dir, env, work);
    InterleavesDistinct(Processed(dir, env, work), Firsts(Failures(dir, env, work)), work);
    InterleavesMultiset(Processed(dir, env, work), Firsts(Failures(dir, env, work)), work);
    assert |multiset(Processed(dir, env, work))| + |multiset(Firsts(Failures(dir, env, work)))| == |multiset(work)|;
  }

  /** Attempt number `i` was on `p` and ended with `outcome`. */
  predicate OutcomeAt(dir: string, env: Env, work: seq<string>, i: int, p: string, outcome: FileOutcome)
    requires 0 <= i < |work|
  {
    work[i] == p && Attempt(dir, env, i, p) == outcome
  }

  lemma OutcomeAtInit(dir: string, env: Env, work: seq<string>, i: int, p: string, outcome: FileOutcome)
    requires 0 <= i < |work| - 1
    ensures OutcomeAt(dir, env, work[..|work| - 1], i, p, outcome) <==> OutcomeAt(dir, env, work, i, p, outcome)
  {
    assert work[..|work| - 1][i] == work[i];
  }

  lemma {:induction false} ProcessedSound(dir: string, env: Env, work: seq<string>, p: string)
    requires p in Processed(dir, env, work)
    ensures exists i :: 0 <= i < |work| && OutcomeAt(dir, env, work, i, p, Done)
  {
    var n := |work| - 1;
    var before := Processed(dir, env, work[..n]);
    var last := if Attempt(dir, env, n, work[n]).Done? then [work[n]] else [];
    assert Processed(dir, env, work) == before + last;
    InConcat(before, last, p);
    if p in before {
      ProcessedSound(dir, env, work[..n], p);
      var i :| 0 <= i < n && OutcomeAt(dir, env, work[..n], i, p, Done);
      OutcomeAtInit(dir, env, work, i, p, Done);
    } else {
      assert OutcomeAt(dir, env, work, n, p, Done);
    }
  }

  lemma {:induction false} ProcessedComplete(dir: string, env: Env, work: seq<string>, i: int, p: string)
    requires 0 <= i < |work| && OutcomeAt(dir, env, work, i, p, Done)
    ensures p in Processed(dir, env, work)
  {
    var n := |work| - 1;
    if i < n {
      OutcomeAtInit(dir, env, work, i, p, Done);
      ProcessedComplete(dir, env, work[..n], i, p);
      ProcessedGrows(dir, env, work, p);
    } else {
      ProcessedLast(dir, env, work);
    }
  }

  lemma ProcessedGrows(dir: string, env: Env, work: seq<string>, p: string)
    requires work != [] && p in Processed(dir, env, work[..|work| - 1])
    ensures p in Processed(dir, env, work)
  {
    var n := |work| - 1;
    var before := Processed(dir, env, work[..n]);
    var last := if Attempt(dir, env, n, work[n]).Done? then [work[n]] else [];
    assert Processed(dir, env, work) == before + last;
    InConcat(before, last, p);
  }

  lemma ProcessedLast(dir: string, env: Env, work: seq<string>)
    requires work != [] && Attempt(dir, env, |work| - 1, work[|work| - 1]).Done?
    ensures work[|work| - 1] in Processed(dir, env, work)
  {
    var n := |work| - 1;
    var before := Processed(dir, env, work[..n]);
    assert Processed(dir, env, work) == before + [work[n]];
    InConcat(before, [work[n]], work[n]);
  }

  lemma {:induction false} FailuresSound(dir: string, env: Env, work: seq<string>, p: string, m: string)
    requires (p, m) in Failures(dir, env, work)
    ensures exists i :: 0 <= i < |work| && OutcomeAt(dir, env, work, i, p, Failed(m))
  {
    var n := |work| - 1;
    var outcome := Attempt(dir, env, n, work[n]);
    var before := Failures(dir, env, work[..n]);
    var last := if outcome.Failed? then [(work[n], outcome.message)] else [];
    assert Failures(dir, env, work) == before + last;
    InConcat(before, last, (p, m));
    if (p, m) in before {
      FailuresSound(dir, env, work[..n], p, m);
      var i :| 0 <= i < n && OutcomeAt(dir, env, work[..n], i, p, Failed(m));
      OutcomeAtInit(dir, env, work, i, p, Failed(m));
    } else {
      assert OutcomeAt(dir, env, work, n, p, Failed(m));
    }
  }

  lemma {:induction false} FailuresComplete(dir: string, env: Env, work: seq<string>, i: int, p: string, m: string)
    requires 0 <= i < |work| && OutcomeAt(dir, env, work, i, p, Failed(m))
    ensures (p, m) in Failures(dir, env, work)
  {
    var n := |work| - 1;
    if i < n {
      OutcomeAtInit(dir, env, work, i, p, Failed(m));
      FailuresComplete(dir, env, work[..n], i, p, m);
      FailuresGrows(dir, env, work, (p, m));
    } else {
      FailuresLast(dir, env, work);
    }
  }

  lemma FailuresStep(dir: string, env: Env, work: seq<string>)
    requires work != []
    ensures var n := |work| - 1;
      var outcome := Attempt(dir, env, n, work[n]);
      Failures(dir, env, work) == Failures(dir, env, work[..n]) + if outcome.Failed? then [(work[n], outcome.message)] else []
  {
  }

  lemma FailuresGrows(dir: string, env: Env, work: seq<string>, x: (string, string))
    requires work != [] && x in Failures(dir, env, work[..|work| - 1])
    ensures x in Failures(dir, env, work)
  {
    var n := |work| - 1;
    var outcome := Attempt(dir, env, n, work[n]);
    FailuresStep(dir, env, work);
    InConcat(Failures(dir, env, work[..n]), if outcome.Failed? then [(work[n], outcome.message)] else [], x);
  }

  lemma FailuresLast(dir: string, env: Env, work: seq<string>)
    requires work != [] && Attempt(dir, env, |work| - 1, work[|work| - 1]).Failed?
    ensures (work[|work| - 1], Attempt(dir, env, |work| - 1, work[|work| - 1]).message) in Failures(dir, env, work)
  {
    var n := |work| - 1;
    var x := (work[n], Attempt(dir, env, n, work[n]).message);
    FailuresStep(dir, env, work);
    InConcat(Failures(dir, env, work[..n]), [x], x);
  }

  /** A file is processed iff its attempt transcribed it and the write raised nothing. */
  lemma ProcessedMembership(dir: string, env: Env, work: seq<string>, p: string)
    ensures p in Processed(dir, env, work) <==> exists i :: 0 <= i < |work| && OutcomeAt(dir, env, work, i, p, Done)
  {
    if p in Processed(dir, env, work) {
      ProcessedSound(dir, env, work, p);
    }
    if exists i :: 0 <= i < |work| && OutcomeAt(dir, env, work, i, p, Done) {
      var i :| 0 <= i < |work| && OutcomeAt(dir, env, work, i, p, Done);
      ProcessedComplete(dir, env, work, i, p);
    }
  }

  /** `(p, m)` is recorded iff the attempt on `p` raised `m`, in the engine or in the write. */
  lemma FailuresMembership(dir: string, env: Env, work: seq<string>, p: string, m: string)
    ensures (p, m) in Failures(dir, env, work) <==> exists i :: 0 <= i < |work| && OutcomeAt(dir, env, work, i, p, Failed(m))
  {
    if (p, m) in Failures(dir, env, work) {
      FailuresSound(dir, env, work, p, m);
    }
    if exists i :: 0 <= i < |work| && OutcomeAt(dir, env, work, i, p, Failed(m)) {
      var i :| 0 <= i < |work| && OutcomeAt(dir, env, work, i, p, Failed(m));
      FailuresComplete(dir, env, work, i, p, m);
    }
  }

  // ---------------------------------------------------------------------------
  // What the loop leaves on disk.
  // ---------------------------------------------------------------------------

  /** Attempt number `j` gets as far as opening `q`: the engine returned and `open` did not raise. */
  predicate OpensAt(dir: string, env: Env, work: seq<string>, j: int, q: string)
    requires 0 <= j < |work|
  {
    && env.transcribe(j, work[j], env.language).Transcribed?
    && !env.sink(j).OpenFails?
    && OutputPath(dir, work[j]) == q
  }

  /** Path `q` is absent from both stores or holds the same content in both. */
  predicate SamePath(a: map<string, string>, b: map<string, string>, q: string) {
    (q in a <==> q in b) && (q in a && q in b ==> a[q] == b[q])
  }

  /** An attempt that does not open `q` leaves `q` as it was. */
  lemma AttemptKeeps(dir: string, env: Env, work: seq<string>, j: int, q: string, files: map<string, string>)
    requires 0 <= j < |work| && !OpensAt(dir, env, work, j, q)
    ensures SamePath(AttemptStore(dir, env, j, work[j], files), files, q)
  {
    match env.transcribe(j, work[j], env.language)
    case EngineFailed(_) =>
    case Transcribed(segments) =>
      var out := OutputPath(dir, work[j]);
      WriteOutcome(files, out, Concat(TranscriptLines(Basename(out), segments)), env.sink(j));
  }

  /** Attempts from number `m` on that never open `q` leave `q` as it was after attempt `m - 1`. */
  lemma {:induction false} StoreStable(dir: string, env: Env, work: seq<string>, files: map<string, string>, m: int, q: string)
    requires 0 <= m <= |work|
    requires forall j :: m <= j < |work| ==> !OpensAt(dir, env, work, j, q)
    ensures SamePath(StoreAfter(dir, env, work, files), StoreAfter(dir, env, work[..m], files), q)
  {
    if m == |work| {
      assert work[..m] == work;
    } else {
      var n := |work| - 1;
      var init := work[..n];
      assert init[..m] == work[..m];
      forall j | m <= j < n ensures !OpensAt(dir, env, init, j, q) {
        assert init[j] == work[j];
        assert !OpensAt(dir, env, work, j, q);
      }
      StoreStable(dir, env, init, files, m, q);
      AttemptKeeps(dir, env, work, n, q, StoreAfter(dir, env, init, files));
    }
  }

  /** A path that no attempt opens keeps what it had before the loop. */
  lemma UntouchedPaths(dir: string, env: Env, work: seq<string>, files: map<string, string>, q: string)
    requires forall j :: 0 <= j < |work| ==> !OpensAt(dir, env, work, j, q)
    ensures SamePath(StoreAfter(dir, env, work, files), files, q)
  {
    StoreStable(dir, env, work, files, 0, q);
    assert work[..0] == [];
  }

  /**
   * The last attempt that opens an output path decides what it holds: a prefix
   * of that attempt's transcript, and all of it when the attempt succeeded.
   */
  lemma LastWriteWins(dir: string, env: Env, work: seq<string>, files: map<string, string>, i: int, segments: seq<Segment>)
    requires 0 <= i < |work|
    requires env.transcribe(i, work[i], env.language) == Transcribed(segments)
    requires !env.sink(i).OpenFails?
    requires forall j :: i < j < |work| ==> !OpensAt(dir, env, work, j, OutputPath(dir, work[i]))
    ensures var out := OutputPath(dir, work[i]);
      var full := Concat(TranscriptLines(Basename(out), segments));
      && out in StoreAfter(dir, env, work, files)
      && StoreAfter(dir, env, work, files)[out] <= full
      && (Attempt(dir, env, i, work[i]).Done? ==> StoreAfter(dir, env, work, files)[out] == full)
  {
    var out := OutputPath(dir, work[i]);
    StoreStable(dir, env, work, files, i + 1, out);
    var before := StoreAfter(dir, env, work[..i], files);
    assert work[..i + 1][..i] == work[..i];
    assert StoreAfter(dir, env, work[..i + 1], files) == AttemptStore(dir, env, i, work[i], before);
    AttemptWrites(dir, env, i, work[i], segments, before);
  }

  /** An attempt that gets past `open` leaves a prefix of its transcript, all of it when it succeeds. */
  lemma AttemptWrites(dir: string, env: Env, i: nat, audioPath: string, segments: seq<Segment>, files: map<string, string>)
    requires env.transcribe(i, audioPath, env.language) == Transcribed(segments)
    requires !env.sink(i).OpenFails?
    ensures var out := OutputPath(dir, audioPath);
      var full := Concat(TranscriptLines(Basename(out), segments));
      var after := AttemptStore(dir, env, i, audioPath, files);
      && out in after
      && after[out] <= full
      && (Attempt(dir, env, i, audioPath).Done? ==> after[out] == full)
  {
    var out := OutputPath(dir, audioPath);
    WriteOutcome(files, out, Concat(TranscriptLines(Basename(out), segments)), env.sink(i));
  }

  /** The header names the transcript by its own file name: the sanitized base with ".txt". */
  lemma HeaderName(dir: string, audioPath: string)
    ensures Basename(OutputPath(dir, audioPath)) == SanitizeFilename(SplitExt(Basename(audioPath)).0 + ".txt")
  {
    var name := SanitizeFilename(SplitExt(Basename(audioPath)).0 + ".txt");
    SanitizedHasNoSeparator(SplitExt(Basename(audioPath)).0 + ".txt");
    BasenameOfJoin(dir, name);
  }

  /** The loop writes to exactly the path whose existence the scan checked. */
  lemma OutputMatchesScan(dir: string, name: string)
    requires '/' !in name
    ensures OutputPath(dir, Join(dir, name)) == Join(dir, TranscriptName(name))
  {
    BasenameOfJoin(dir, name);
  }

  /**
   * A processed file's transcript, when no later attempt overwrites it, is the
   * fixed header naming the transcript file followed by one line per segment.
   */
  lemma ProcessedTranscript(dir: string, env: Env, work: seq<string>, files: map<string, string>, i: int, segments: seq<Segment>)
    requires 0 <= i < |work|
    requires env.transcribe(i, work[i], env.language) == Transcribed(segments)
    requires Attempt(dir, env, i, work[i]) == Done
    requires forall j :: i < j < |work| ==> !OpensAt(dir, env, work, j, OutputPath(dir, work[i]))
    ensures var out := OutputPath(dir, work[i]);
      && out in StoreAfter(dir, env, work, files)
      && StoreAfter(dir, env, work, files)[out]
         == RULE + "\n" + "filename:" + SanitizeFilename(SplitExt(Basename(work[i])).0 + ".txt") + "\n" + RULE + "\n"
            + Concat(SegmentLines(segments))
  {
    var out := OutputPath(dir, work[i]);
    assert env.sink(i).Accepts?;
    LastWriteWins(dir, env, work, files, i, segments);
    HeaderName(dir, work[i]);
    TranscriptLayout(Basename(out), segments);
  }

  // ---------------------------------------------------------------------------
  // The run (lines 74-132).
  // ---------------------------------------------------------------------------

  /** What `os.listdir` gives for the directory: a snapshot, or the message it raises. */
  datatype Directory = Listed(snapshot: Snapshot) | Unreadable(message: string)

  /**
   * How `main` ends: nothing to do, cancelled at the prompt, stopped by an
   * exception nothing catches, or through the loop with its three lists.
   */
  datatype RunResult =
    | NothingToDo
    | Cancelled
    | Crashed(message: string)
    | Completed(processed: seq<string>, failed: seq<(string, string)>, excluded: seq<(string, string)>)

  /** `str(EOFError())` as `input` raises it at the end of input. */
  const EOF_MESSAGE := "EOF when reading a line"

  /** Only "y" and "Y" lower-case to "y". */
  lemma ConfirmationIff(answer: string)
    ensures Lower(answer) == "y" <==> answer == "y" || answer == "Y"
  {
    if Lower(answer) == "y" {
      assert |answer| == 1;
      assert Lower(answer)[0] == LowerChar(answer[0]) == 'y';
      assert answer == [answer[0]];
    }
    if answer == "Y" {
      assert Lower(answer) == [LowerChar('Y')];
    }
  }

  /** Lines 83-87: the run goes on with `--accept`, or when the answer lower-cases to "y". */
  function Proceeds(accept: bool, answer: Option<string>): (r: bool)
    ensures r <==> accept || answer == Some("y") || answer == Some("Y")
  {
    if answer.Some? then
      ConfirmationIff(answer.value);
      accept || Lower(answer.value) == "y"
    else
      accept
  }

  /**
   * Lines 74-132. `answer` is what `input` returns, `None` at end of input;
   * `loadFailure` is what `whisper.load_model` raises, if anything. `prompted`
   * and `loaded` say whether the prompt was shown and the model loaded.
   */
  method Run(fs: FileStore, dir: string, directory: Directory, accept: bool, answer: Option<string>,
             loadFailure: Option<string>, env: Env)
    returns (result: RunResult, prompted: bool, loaded: bool)
    modifies fs
    ensures directory.Unreadable? ==>
      result == Crashed(directory.message) && !prompted && !loaded && fs.files == old(fs.files)
    ensures directory.Listed? ==>
      var work := Pending(dir, directory.snapshot.listing, directory.snapshot.existing);
      var excluded := Excluded(dir, directory.snapshot.listing, directory.snapshot.existing);
      && (work == [] ==> result == NothingToDo && !prompted && !loaded && fs.files == old(fs.files))
      && (work != [] ==> prompted == !accept && loaded == Proceeds(accept, answer))
      && (work != [] && !accept && answer == None ==> result == Crashed(EOF_MESSAGE) && fs.files == old(fs.files))
      && (work != [] && answer.Some? && !Proceeds(accept, answer) ==> result == Cancelled && fs.files == old(fs.files))
      && (work != [] && Proceeds(accept, answer) && loadFailure.Some? ==>
            result == Crashed(loadFailure.value) && fs.files == old(fs.files))
      && (work != [] && Proceeds(accept, answer) && loadFailure == None ==>
            && result == Completed(Processed(dir, env, work), Failures(dir, env, work), excluded)
            && fs.files == StoreAfter(dir, env, work, old(fs.files)))
  {
    prompted, loaded := false, false;
    if directory.Unreadable? {
      return Crashed(directory.message), prompted, loaded;
    }
    var filesToProcess, excludedFiles := ScanDirectory(dir, directory.snapshot);
    if filesToProcess == [] {
      return NothingToDo, prompted, loaded;
    }
    if !accept {
      prompted := true;
      if answer == None {
        return Crashed(EOF_MESSAGE), prompted, loaded;
      }
      var confirmation := Lower(answer.value);
      if confirmation != "y" {
        return Cancelled, prompted, loaded;
      }
    }
    loaded := true;
    if loadFailure.Some? {
      return Crashed(loadFailure.value), prompted, loaded;
    }
    var processedFiles, failedFiles := ProcessFiles(fs, dir, env, filesToProcess);
    return Completed(processedFiles, failedFiles, excludedFiles), prompted, loaded;
  }

  // ---------------------------------------------------------------------------
  // Two recordings with one transcript name.
  // ---------------------------------------------------------------------------

  /**
   * When two scheduled files share an output path and both succeed, the file
   * holds the later one's transcript: the earlier one is overwritten.
   */
  lemma CollisionLaterWins(dir: string, env: Env, files: map<string, string>, a: string, b: string,
                           first: seq<Segment>, second: seq<Segment>)
    requires OutputPath(dir, a) == OutputPath(dir, b)
    requires env.transcribe(0, a, env.language) == Transcribed(first)
    requires env.transcribe(1, b, env.language) == Transcribed(second)
    requires Attempt(dir, env, 0, a) == Done && Attempt(dir, env, 1, b) == Done
    ensures Processed(dir, env, [a, b]) == [a, b]
    ensures var out := OutputPath(dir, b);
      && out in StoreAfter(dir, env, [a, b], files)
      && StoreAfter(dir, env, [a, b], files)[out] == Concat(TranscriptLines(Basename(out), second))
    ensures var out := OutputPath(dir, a);
      var earlier := Concat(TranscriptLines(Basename(out), first));
      earlier != Concat(TranscriptLines(Basename(out), second)) ==> StoreAfter(dir, env, [a, b], files)[out] != earlier
  {
    BothProcessed(dir, env, a, b);
    SecondWins(dir, env, files, a, b, second);
  }

  lemma BothProcessed(dir: string, env: Env, a: string, b: string)
    requires Attempt(dir, env, 0, a) == Done && Attempt(dir, env, 1, b) == Done
    ensures Processed(dir, env, [a, b]) == [a, b]
  {
    var work := [a, b];
    assert work[..1] == [a] && [a][..0] == [];
    assert work[1] == b && [a][0] == a;
    ProcessedStep(dir, env, [a]);
    assert Processed(dir, env, [a]) == [a];
    ProcessedStep(dir, env, work);
  }

  lemma ProcessedStep(dir: string, env: Env, work: seq<string>)
    requires work != []
    ensures var n := |work| - 1;
      Processed(dir, env, work) == Processed(dir, env, work[..n]) + if Attempt(dir, env, n, work[n]).Done? then [work[n]] else []
  {
  }

  lemma SecondWins(dir: string, env: Env, files: map<string, string>, a: string, b: string, second: seq<Segment>)
    requires env.transcribe(1, b, env.language) == Transcribed(second)
    requires Attempt(dir, env, 1, b) == Done
    ensures var out := OutputPath(dir, b);
      && out in StoreAfter(dir, env, [a, b], files)
      && StoreAfter(dir, env, [a, b], files)[out] == Concat(TranscriptLines(Basename(out), second))
  {
    var work := [a, b];
    assert work[1] == b;
    assert env.sink(1).Accepts?;
    LastWriteWins(dir, env, work, files, 1, second);
  }

  /** Where the names of the collision example split. */
  lemma CollisionSplits()
    ensures SplitExt("A.mp3") == ("A", ".mp3")
    ensures SplitExt("a.wav") == ("a", ".wav")
  {
    LiteralExtensions();
    SplitNamed("A.mp3", "A", ".mp3");
    SplitNamed("a.wav", "a", ".wav");
  }

  lemma CollisionClean()
    ensures CleanBase("A") == "a" && CleanBase("a") == "a"
  {
    assert Lower("A") == "a";
    assert Lower("a") == "a";
    assert ReplaceDisallowed("a") == "a";
    assert IsClean("a");
    CleanBaseFixesClean("a");
  }

  lemma CollisionLiteral()
    ensures "a" + ".txt" == "a.txt"
  {
  }

  lemma UpperTranscript()
    ensures TranscriptName("A.mp3") == "a.txt"
  {
    CollisionLiteral();
    CollisionSplits();
    CollisionClean();
    TranscriptNameOf("A.mp3");
  }

  lemma LowerTranscript()
    ensures TranscriptName("a.wav") == "a.txt"
  {
    CollisionLiteral();
    CollisionSplits();
    CollisionClean();
    TranscriptNameOf("a.wav");
  }

  lemma CollisionEntries()
    ensures IsAudio(Entry("A.mp3", true)) && IsAudio(Entry("a.wav", true))
    ensures !IsTranscribed("/d", {}, "A.mp3") && !IsTranscribed("/d", {}, "a.wav")
  {
    CollisionSplits();
    LowerLiterals();
  }

  /** The scan of a two-entry listing whose entries are both new audio files. */
  lemma ScanTwoNew(dir: string, e0: Entry, e1: Entry, existing: set<string>)
    requires IsAudio(e0) && !IsTranscribed(dir, existing, e0.name)
    requires IsAudio(e1) && !IsTranscribed(dir, existing, e1.name)
    ensures Pending(dir, [e0, e1], existing) == [Join(dir, e0.name), Join(dir, e1.name)]
  {
    assert [e0, e1][..1] == [e0] && [e0][..0] == [];
    ScanStep(dir, [e0], existing);
    ScanStep(dir, [e0, e1], existing);
  }

  /**
   * "A.mp3" and "a.wav" are both scheduled in an otherwise empty
   * directory, and both are transcribed to "/d/a.txt".
   */
  lemma ExampleCollision()
    ensures Pending("/d", [Entry("A.mp3", true), Entry("a.wav", true)], {})
         == ["/d/A.mp3", "/d/a.wav"]
    ensures OutputPath("/d", "/d/A.mp3") == "/d/a.txt"
    ensures OutputPath("/d", "/d/a.wav") == "/d/a.txt"
  {
    CollisionEntries();
    CollisionJoins();
    ScanTwoNew("/d", Entry("A.mp3", true), Entry("a.wav", true), {});
    CollisionOutputs();
  }

  lemma CollisionJoins()
    ensures Join("/d", "A.mp3") == "/d/A.mp3"
    ensures Join("/d", "a.wav") == "/d/a.wav"
    ensures Join("/d", "a.txt") == "/d/a.txt"
  {
  }

  lemma CollisionOutputs()
    ensures OutputPath("/d", "/d/A.mp3") == "/d/a.txt"
    ensures OutputPath("/d", "/d/a.wav") == "/d/a.txt"
  {
    UpperOutput();
    LowerOutput();
  }

  lemma UpperOutput()
    ensures OutputPath("/d", "/d/A.mp3") == "/d/a.txt"
  {
    CollisionJoins();
    UpperTranscript();
    OutputOf("/d", "A.mp3", "/d/A.mp3", "a.txt", "/d/a.txt");
  }

  lemma LowerOutput()
    ensures OutputPath("/d", "/d/a.wav") == "/d/a.txt"
  {
    CollisionJoins();
    LowerTranscript();
    OutputOf("/d", "a.wav", "/d/a.wav", "a.txt", "/d/a.txt");
  }

  /** The output path of a listed file, from its path and its transcript name. */
  lemma OutputOf(dir: string, name: string, path: string, transcript: string, out: string)
    requires '/' !in name
    requires Join(dir, name) == path && TranscriptName(name) == transcript && Join(dir, transcript) == out
    ensures OutputPath(dir, path) == out
  {
    OutputMatchesScan(dir, name);
  }
}
