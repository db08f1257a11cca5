/**
 * `get_audio_files_status`: one pass over a directory listing that keeps the
 * regular files with a supported audio extension and sorts each into "to
 * process" or "excluded", the latter when its transcript already exists.
 *
 * The directory is a snapshot: the listing in `os.listdir` order, each entry
 * carrying what `os.path.isfile` says of it, and the set of paths on which
 * `os.path.exists` holds (files, directories, anything that resolves).
 */
module WorkSet {
  import opened Paths
  import opened Sanitizer
  import opened Sequences

  datatype Entry = Entry(name: string, isFile: bool)

  datatype Snapshot = Snapshot(listing: seq<Entry>, existing: set<string>)

  const AUDIO_EXTENSIONS: set<string> := {".mp3", ".wav", ".m4a", ".ogg", ".flac"}

  const ALREADY_TRANSCRIBED := "Transcription text file already exists"

  /** A regular file whose extension, lower-cased, is a supported audio one. */
  predicate IsAudio(e: Entry) {
    e.isFile && Lower(SplitExt(e.name).1) in AUDIO_EXTENSIONS
  }

  /** The name of the transcript of an audio file: its base with ".txt", sanitized. */
  function TranscriptName(audioName: string): string {
    SanitizeFilename(SplitExt(audioName).0 + ".txt")
  }

  predicate IsTranscribed(dir: string, existing: set<string>, audioName: string) {
    Join(dir, TranscriptName(audioName)) in existing
  }

  /** Where a listed entry lives: `os.path.join(directory, filename)`. */
  function PathIn(dir: string): Entry -> string {
    (e: Entry) => Join(dir, e.name)
  }

  /** The entries the scan schedules: audio files whose transcript does not exist. */
  function ToProcess(dir: string, existing: set<string>): Entry -> bool {
    (e: Entry) => IsAudio(e) && !IsTranscribed(dir, existing, e.name)
  }

  /** The entries the scan excludes: audio files whose transcript exists. */
  function AlreadyDone(dir: string, existing: set<string>): Entry -> bool {
    (e: Entry) => IsAudio(e) && IsTranscribed(dir, existing, e.name)
  }

  function Exclusion(dir: string): Entry -> (string, string) {
    (e: Entry) => (Join(dir, e.name), ALREADY_TRANSCRIBED)
  }

  /** The paths of all audio files, in listing order. */
  function AudioPaths(dir: string, listing: seq<Entry>): seq<string> {
    Select(listing, IsAudio, PathIn(dir))
  }

  /** The first result of the scan over `listing`. */
  function Pending(dir: string, listing: seq<Entry>, existing: set<string>): seq<string> {
    Select(listing, ToProcess(dir, existing), PathIn(dir))
  }

  /** The second result of the scan over `listing`. */
  function Excluded(dir: string, listing: seq<Entry>, existing: set<string>): seq<(string, string)> {
    Select(listing, AlreadyDone(dir, existing), Exclusion(dir))
  }

  /** Lines 27-50: the loop over the listing. */
  method ScanDirectory(dir: string, snapshot: Snapshot) returns (toProcess: seq<string>, excluded: seq<(string, string)>)
    ensures toProcess == Pending(dir, snapshot.listing, snapshot.existing)
    ensures excluded == Excluded(dir, snapshot.listing, snapshot.existing)
  {
    var listing := snapshot.listing;
    toProcess, excluded := [], [];
    for i := 0 to |listing|
      invariant toProcess == Pending(dir, listing[..i], snapshot.existing)
      invariant excluded == Excluded(dir, listing[..i], snapshot.existing)
    {
      assert listing[..i + 1][..i] == listing[..i];
      ScanStep(dir, listing[..i + 1], snapshot.existing);
      var filename := listing[i].name;
      var filePath := Join(dir, filename);
      if !listing[i].isFile {
        continue;
      }
      var ext := Lower(SplitExt(filename).1);
      if ext !in AUDIO_EXTENSIONS {
        continue;
      }
      var baseName := SplitExt(filename).0;
      var sanitizedTxt := SanitizeFilename(baseName + ".txt");
      var txtPath := Join(dir, sanitizedTxt);
      if txtPath in snapshot.existing {
        excluded := excluded + [(filePath, ALREADY_TRANSCRIBED)];
      } else {
        toProcess := toProcess + [filePath];
      }
    }
    assert listing[..|listing|] == listing;
  }

  /** The last entry of the listing adds at most itself to each result. */
  lemma ScanStep(dir: string, listing: seq<Entry>, existing: set<string>)
    requires listing != []
    ensures var e := listing[|listing| - 1];
      Pending(dir, listing, existing) == Pending(dir, listing[..|listing| - 1], existing)
        + if IsAudio(e) && !IsTranscribed(dir, existing, e.name) then [Join(dir, e.name)] else []
    ensures var e := listing[|listing| - 1];
      Excluded(dir, listing, existing) == Excluded(dir, listing[..|listing| - 1], existing)
        + if IsAudio(e) && IsTranscribed(dir, existing, e.name) then [(Join(dir, e.name), ALREADY_TRANSCRIBED)] else []
  {
    SelectStep(listing, ToProcess(dir, existing), PathIn(dir));
    SelectStep(listing, AlreadyDone(dir, existing), Exclusion(dir));
  }

  // ---------------------------------------------------------------------------
  // What the scan promises.
  // ---------------------------------------------------------------------------

  /**
   * Every audio file lands in exactly one of the two lists, and each list keeps
   * listing order: the audio paths are a merge of the two.
   */
  lemma ScanIsOrderedPartition(dir: string, listing: seq<Entry>, existing: set<string>)
    ensures Interleaves(Pending(dir, listing, existing), Firsts(Excluded(dir, listing, existing)), AudioPaths(dir, listing))
  {
    SelectFirsts(listing, AlreadyDone(dir, existing), Exclusion(dir), PathIn(dir));
    SelectPartition(listing, IsAudio, ToProcess(dir, existing), AlreadyDone(dir, existing), PathIn(dir));
  }

  lemma AudioPathsMembership(dir: string, listing: seq<Entry>, p: string)
    ensures p in AudioPaths(dir, listing)
        <==> exists i :: 0 <= i < |listing| && IsAudio(listing[i]) && p == Join(dir, listing[i].name)
  {
    SelectMembership(listing, IsAudio, PathIn(dir), p);
  }

  /** Entry `i` of the listing is an audio file at `p` whose transcript exists or not, as `transcribed` says. */
  predicate AudioAt(dir: string, existing: set<string>, listing: seq<Entry>, i: int, p: string, transcribed: bool)
    requires 0 <= i < |listing|
  {
    IsAudio(listing[i]) && p == Join(dir, listing[i].name) && IsTranscribed(dir, existing, listing[i].name) == transcribed
  }

  /** A path is to be processed iff it is an audio file whose transcript does not exist. */
  lemma PendingMembership(dir: string, listing: seq<Entry>, existing: set<string>, p: string)
    ensures p in Pending(dir, listing, existing)
        <==> exists i :: 0 <= i < |listing| && AudioAt(dir, existing, listing, i, p, false)
  {
    SelectMembership(listing, ToProcess(dir, existing), PathIn(dir), p);
    assert forall i :: 0 <= i < |listing| ==>
      ((ToProcess(dir, existing)(listing[i]) && PathIn(dir)(listing[i]) == p) <==> AudioAt(dir, existing, listing, i, p, false));
  }

  /** A pair is excluded iff it names an audio file whose transcript exists, with the fixed reason. */
  lemma ExcludedMembership(dir: string, listing: seq<Entry>, existing: set<string>, p: string, reason: string)
    ensures (p, reason) in Excluded(dir, listing, existing)
        <==> reason == ALREADY_TRANSCRIBED && exists i :: 0 <= i < |listing| && AudioAt(dir, existing, listing, i, p, true)
  {
    SelectMembership(listing, AlreadyDone(dir, existing), Exclusion(dir), (p, reason));
    assert forall i :: 0 <= i < |listing| ==>
      ((AlreadyDone(dir, existing)(listing[i]) && Exclusion(dir)(listing[i]) == (p, reason))
        <==> (reason == ALREADY_TRANSCRIBED && AudioAt(dir, existing, listing, i, p, true)));
  }

  /** Exactly the regular audio files appear in the two results; nothing else does. */
  lemma ScanFilter(dir: string, listing: seq<Entry>, existing: set<string>, p: string)
    ensures (p in Pending(dir, listing, existing) || p in Firsts(Excluded(dir, listing, existing)))
        <==> exists i :: 0 <= i < |listing| && IsAudio(listing[i]) && p == Join(dir, listing[i].name)
  {
    ScanIsOrderedPartition(dir, listing, existing);
    InterleavesMultiset(Pending(dir, listing, existing), Firsts(Excluded(dir, listing, existing)), AudioPaths(dir, listing));
    assert p in AudioPaths(dir, listing) <==> p in multiset(AudioPaths(dir, listing));
    AudioPathsMembership(dir, listing, p);
  }

  /** Names as `os.listdir` gives them: distinct, and none holding a separator. */
  predicate IsListing(listing: seq<Entry>) {
    && (forall i, j :: 0 <= i < j < |listing| ==> listing[i].name != listing[j].name)
    && (forall i :: 0 <= i < |listing| ==> '/' !in listing[i].name)
  }

  lemma NoLeadingSeparator(name: string)
    requires '/' !in name
    ensures |name| > 0 ==> name[0] != '/'
  {
    if |name| > 0 {
      assert name[0] in name;
    }
  }

  lemma AudioPathsDistinct(dir: string, listing: seq<Entry>)
    requires IsListing(listing)
    ensures Distinct(AudioPaths(dir, listing))
  {
    forall i, j | 0 <= i < j < |listing| && IsAudio(listing[i]) && IsAudio(listing[j])
      ensures PathIn(dir)(listing[i]) != PathIn(dir)(listing[j])
    {
      NoLeadingSeparator(listing[i].name);
      NoLeadingSeparator(listing[j].name);
      if Join(dir, listing[i].name) == Join(dir, listing[j].name) {
        JoinInjective(dir, listing[i].name, listing[j].name);
      }
    }
    SelectDistinct(listing, IsAudio, PathIn(dir));
  }

  /** On a real listing no path is scheduled twice or both scheduled and excluded. */
  lemma ScanDistinct(dir: string, listing: seq<Entry>, existing: set<string>)
    requires IsListing(listing)
    ensures Distinct(Pending(dir, listing, existing))
    ensures Distinct(Firsts(Excluded(dir, listing, existing)))
    ensures forall p :: p in Pending(dir, listing, existing) ==> p !in Firsts(Excluded(dir, listing, existing))
  {
    AudioPathsDistinct(dir, listing);
    ScanIsOrderedPartition(dir, listing, existing);
    InterleavesDistinct(Pending(dir, listing, existing), Firsts(Excluded(dir, listing, existing)), AudioPaths(dir, listing));
  }

  /** A hidden recording is scanned like any other: ".memo.mp3" is transcribed to "memo.txt". */
  lemma HiddenRecording()
    ensures IsAudio(Entry(".memo.mp3", true))
    ensures TranscriptName(".memo.mp3") == "memo.txt"
  {
    TranscriptLiterals();
    HiddenSplit();
    HiddenClean();
    LowerLiterals();
    TranscriptNameOf(".memo.mp3");
  }

  lemma HiddenSplit()
    ensures SplitExt(".memo.mp3") == (".memo", ".mp3")
  {
    assert ".memo" + ".mp3" == ".memo.mp3";
    LastIndexIs(".memo", '/', -1);
    assert Basename(".memo") == ".memo";
    assert !OnlyDots(".memo") by { assert ".memo"[1] != '.'; }
    LiteralExtensions();
    SplitExtAppend(".memo", ".mp3");
  }

  lemma HiddenClean()
    ensures CleanBase(".memo") == "memo"
  {
    assert Lower(".memo") == ".memo";
    assert ReplaceDisallowed(".memo") == "-memo";
    assert CollapseDashes("-memo") == "-memo";
    assert StripTrailing("-memo") == "-memo";
    assert "-memo"[1..] == "memo";
    assert StripLeading("memo") == "memo";
  }

  // ---------------------------------------------------------------------------
  // A directory with one new and one already transcribed recording.
  // ---------------------------------------------------------------------------

  /** The extensions the examples use, checked once. */
  lemma LiteralExtensions()
    ensures IsExtension(".txt") && IsExtension(".mp3") && IsExtension(".wav")
  {
  }

  /**
   * Lines 41-43: the transcript name of any file that has an extension (every
   * audio file has one, hidden ones such as ".memo.mp3" included). The ".txt"
   * appended to the base is split off again, so only the base is cleaned.
   */
  lemma TranscriptNameOf(audioName: string)
    requires SplitExt(audioName).1 != []
    ensures TranscriptName(audioName) == CleanBase(SplitExt(audioName).0) + ".txt"
  {
    var base := SplitExt(audioName).0;
    var extension := SplitExt(audioName).1;
    assert HasStem(base) by {
      SplitExtAppend(base, extension);
    }
    LiteralExtensions();
    SplitExtAppend(base, ".txt");
    SanitizeSplit(base + ".txt", base, ".txt");
  }

  /** Every audio file has an extension, so its transcript name is its cleaned base with ".txt". */
  lemma AudioTranscriptName(e: Entry)
    requires IsAudio(e)
    ensures TranscriptName(e.name) == CleanBase(SplitExt(e.name).0) + ".txt"
  {
    var extension := SplitExt(e.name).1;
    assert |Lower(extension)| == |extension|;
    NoEmptyAudioExtension();
    assert Lower(extension) != [];
    TranscriptNameOf(e.name);
  }

  lemma NoEmptyAudioExtension()
    ensures [] !in AUDIO_EXTENSIONS
  {
  }

  /** Where the names of the example directory split. */
  lemma ExampleSplits()
    ensures SplitExt("A B.mp3") == ("A B", ".mp3")
    ensures SplitExt("C 1.wav") == ("C 1", ".wav")
    ensures SplitExt("c-1.txt") == ("c-1", ".txt")
  {
    LiteralExtensions();
    SplitNamed("A B.mp3", "A B", ".mp3");
    SplitNamed("C 1.wav", "C 1", ".wav");
    SplitNamed("c-1.txt", "c-1", ".txt");
  }

  lemma TranscriptLiterals()
    ensures "a-b" + ".txt" == "a-b.txt" && "c-1" + ".txt" == "c-1.txt"
    ensures "memo" + ".txt" == "memo.txt"
  {
  }

  lemma NewTranscript()
    ensures TranscriptName("A B.mp3") == "a-b.txt"
  {
    TranscriptLiterals();
    ExampleSplits();
    NewClean();
    TranscriptNameOf("A B.mp3");
  }

  lemma NewClean()
    ensures CleanBase("A B") == "a-b"
  {
    assert Lower("A B") == "a b";
    assert ReplaceDisallowed("a b") == "a-b";
    assert ReplaceDisallowed(Lower("a-b")) == "a-b";
    assert IsClean("a-b");
    CleanBaseFixesClean("a-b");
  }

  lemma DoneTranscript()
    ensures TranscriptName("C 1.wav") == "c-1.txt"
  {
    TranscriptLiterals();
    ExampleSplits();
    DoneClean();
    TranscriptNameOf("C 1.wav");
  }

  lemma DoneClean()
    ensures CleanBase("C 1") == "c-1"
  {
    assert Lower("C 1") == "c 1";
    assert ReplaceDisallowed("c 1") == "c-1";
    assert ReplaceDisallowed(Lower("c-1")) == "c-1";
    assert IsClean("c-1");
    CleanBaseFixesClean("c-1");
  }

  lemma NewEntry(existing: set<string>)
    requires existing == {"/d/A B.mp3", "/d/C 1.wav", "/d/c-1.txt"}
    ensures IsAudio(Entry("A B.mp3", true)) && !IsTranscribed("/d", existing, "A B.mp3")
  {
    NewIsAudio();
    NewNotTranscribed(existing);
  }

  lemma NewIsAudio()
    ensures IsAudio(Entry("A B.mp3", true))
  {
    ExampleSplits();
    LowerLiterals();
  }

  lemma NewNotTranscribed(existing: set<string>)
    requires existing == {"/d/A B.mp3", "/d/C 1.wav", "/d/c-1.txt"}
    ensures !IsTranscribed("/d", existing, "A B.mp3")
  {
    NewTranscript();
    JoinLiterals();
    NewTranscriptMissing();
  }

  lemma NewTranscriptMissing()
    ensures "/d/a-b.txt" !in {"/d/A B.mp3", "/d/C 1.wav", "/d/c-1.txt"}
  {
  }

  lemma DoneEntry(existing: set<string>)
    requires existing == {"/d/A B.mp3", "/d/C 1.wav", "/d/c-1.txt"}
    ensures IsAudio(Entry("C 1.wav", true)) && IsTranscribed("/d", existing, "C 1.wav")
  {
    DoneIsAudio();
    DoneTranscript();
    JoinLiterals();
  }

  lemma DoneIsAudio()
    ensures IsAudio(Entry("C 1.wav", true))
  {
    ExampleSplits();
    LowerLiterals();
  }

  lemma TextFileEntry()
    ensures !IsAudio(Entry("c-1.txt", true))
  {
    ExampleSplits();
    LowerLiterals();
    TextNotAudio();
  }

  lemma LowerLiterals()
    ensures Lower(".mp3") == ".mp3" && Lower(".wav") == ".wav" && Lower(".txt") == ".txt"
  {
  }

  lemma JoinLiterals()
    ensures Join("/d", "a-b.txt") == "/d/a-b.txt"
    ensures Join("/d", "c-1.txt") == "/d/c-1.txt"
    ensures Join("/d", "A B.mp3") == "/d/A B.mp3"
    ensures Join("/d", "C 1.wav") == "/d/C 1.wav"
  {
  }

  lemma TextNotAudio()
    ensures ".txt" !in AUDIO_EXTENSIONS
  {
    assert ".txt"[1] == 't';
    assert ".mp3"[1] == 'm' && ".wav"[1] == 'w' && ".m4a"[1] == 'm' && ".ogg"[1] == 'o' && ".flac"[1] == 'f';
  }

  /** The scan of a three-entry listing, in terms of its entries. */
  lemma ScanThree(dir: string, e0: Entry, e1: Entry, e2: Entry, existing: set<string>)
    requires IsAudio(e0) && !IsTranscribed(dir, existing, e0.name)
    requires IsAudio(e1) && IsTranscribed(dir, existing, e1.name)
    requires !IsAudio(e2)
    ensures Pending(dir, [e0, e1, e2], existing) == [Join(dir, e0.name)]
    ensures Excluded(dir, [e0, e1, e2], existing) == [(Join(dir, e1.name), ALREADY_TRANSCRIBED)]
  {
    PendingThree(dir, e0, e1, e2, existing);
    ExcludedThree(dir, e0, e1, e2, existing);
  }

  lemma PendingThree(dir: string, e0: Entry, e1: Entry, e2: Entry, existing: set<string>)
    requires IsAudio(e0) && !IsTranscribed(dir, existing, e0.name)
    requires IsTranscribed(dir, existing, e1.name)
    requires !IsAudio(e2)
    ensures Pending(dir, [e0, e1, e2], existing) == [Join(dir, e0.name)]
  {
    SelectThree(e0, e1, e2, ToProcess(dir, existing), PathIn(dir));
  }

  lemma ExcludedThree(dir: string, e0: Entry, e1: Entry, e2: Entry, existing: set<string>)
    requires !IsTranscribed(dir, existing, e0.name)
    requires IsAudio(e1) && IsTranscribed(dir, existing, e1.name)
    requires !IsAudio(e2)
    ensures Excluded(dir, [e0, e1, e2], existing) == [(Join(dir, e1.name), ALREADY_TRANSCRIBED)]
  {
    SelectThree(e0, e1, e2, AlreadyDone(dir, existing), Exclusion(dir));
  }

  /** "A B.mp3" is scheduled; "C 1.wav" is excluded because "c-1.txt" exists. */
  lemma ExampleScan()
    ensures var listing := [Entry("A B.mp3", true), Entry("C 1.wav", true), Entry("c-1.txt", true)];
            var existing := {"/d/A B.mp3", "/d/C 1.wav", "/d/c-1.txt"};
            && Pending("/d", listing, existing) == ["/d/A B.mp3"]
            && Excluded("/d", listing, existing) == [("/d/C 1.wav", ALREADY_TRANSCRIBED)]
  {
    var existing := {"/d/A B.mp3", "/d/C 1.wav", "/d/c-1.txt"};
    NewEntry(existing);
    DoneEntry(existing);
    TextFileEntry();
    JoinLiterals();
    ScanThree("/d", Entry("A B.mp3", true), Entry("C 1.wav", true), Entry("c-1.txt", true), existing);
  }
}
