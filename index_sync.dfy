/** The synchronisation of the persisted Chroma store with the document
    directory (main.py:70-99): compare the directory's fingerprint with the
    one recorded in `chroma_db/pdf_hash.txt`, then reuse, build or rebuild the
    store, and finally reopen it from disk.

    Building the store (`Chroma.from_documents`) and loading it (`Chroma(...)`)
    are abstract events: a build leaves `chroma_db` in place and is counted. */
module IndexSync {
  import opened Wrappers
  import opened FileNames
  import opened PdfHash

  /** The names main.py's import statements bind (main.py:6 and 12-25).
      `hashlib` and `os`, which the fingerprint and the tree use, are among
      them; `shutil`, which main.py:78 uses, is not. */
  function SourceImports(): (r: set<string>)
    ensures "hashlib" in r && "os" in r && "Chroma" in r
    ensures "shutil" !in r
  {
    {
      "warnings", "os", "PyPDFLoader", "RecursiveCharacterTextSplitter", "Chroma",
      "Ollama", "RunnablePassthrough", "ChatPromptTemplate", "HumanMessage",
      "AIMessage", "SentenceTransformerEmbeddings", "FurhatRemoteAPI",
      "load_dotenv", "datetime", "pickle", "hashlib"
    }
  }

  /** How the `vectorstore` variable was last assigned. */
  datatype Store = Unset | Built | Loaded

  /** What the tree inspects and changes: whether `chroma_db` exists, the
      record file (absent, or its whole text), how many times the store has
      been built, and the `vectorstore` variable. */
  datatype Disk = Disk(storeDir: bool, record: Option<string>, builds: nat, vectorstore: Store)
  {
    /** The record file lives inside `chroma_db`. */
    predicate Valid()
    {
      record.Some? ==> storeDir
    }
  }

  /** The four situations the tree tells apart. */
  datatype Branch = NoPersistence | NoRecord | Match | Mismatch

  /** A run ends with the store ready, or with an uncaught NameError naming the unbound global. */
  datatype Outcome = Ready(branch: Branch) | NameError(name: string)

  datatype RunResult = RunResult(outcome: Outcome, disk: Disk)

  /** The branch the tests at main.py:73-77 select: no `chroma_db`, no record
      file, a record whose whole text (untrimmed) is the fingerprint, or any
      other record. */
  function Classify(d: Disk, current: string): (r: Branch)
    ensures r == NoPersistence <==> !d.storeDir
    ensures r == NoRecord <==> d.storeDir && d.record.None?
    ensures r == Match <==> d.storeDir && d.record == Some(current)
    ensures r == Mismatch <==> d.storeDir && d.record.Some? && d.record.value != current
  {
    if !d.storeDir then NoPersistence
    else if d.record.None? then NoRecord
    else if d.record.value == current then Match
    else Mismatch
  }

  // The effect of each filesystem and library call on the state.

  /** `Chroma.from_documents(..., persist_directory="chroma_db")`. */
  function Build(d: Disk): (r: Disk)
    ensures r.Valid()
    ensures r.storeDir && r.builds == d.builds + 1 && r.vectorstore == Built
    ensures r.record == d.record
  {
    d.(storeDir := true, builds := d.builds + 1, vectorstore := Built)
  }

  /** `Chroma(embedding_function=..., persist_directory="chroma_db")`. */
  function Load(d: Disk): (r: Disk)
    ensures d.Valid() ==> r.Valid()
    ensures r.vectorstore == Loaded
    ensures r.storeDir == d.storeDir && r.record == d.record && r.builds == d.builds
  {
    d.(vectorstore := Loaded)
  }

  /** `open(hash_file, 'w').write(text)`: the file's whole text becomes `text`. */
  function Write(d: Disk, text: string): (r: Disk)
    ensures d.storeDir ==> r.Valid()
    ensures r.record == Some(text)
    ensures r.storeDir == d.storeDir && r.builds == d.builds && r.vectorstore == d.vectorstore
  {
    d.(record := Some(text))
  }

  /** `shutil.rmtree('chroma_db')`, once the name `shutil` resolves. */
  function RemoveTree(d: Disk): (r: Disk)
    ensures r.Valid()
    ensures !r.storeDir && r.record.None?
    ensures r.builds == d.builds && r.vectorstore == d.vectorstore
  {
    d.(storeDir := false, record := None)
  }

  /** main.py:73-92, the decision tree, with `globals` the names bound when it runs. */
  function Decide(globals: set<string>, d: Disk, current: string): (r: RunResult)
    ensures r.outcome.Ready? ==> r.disk.storeDir && r.disk.record == Some(current)
  {
    if d.storeDir then
      if d.record.Some? then
        if d.record.value != current then
          if "shutil" !in globals then RunResult(NameError("shutil"), d)
          else RunResult(Ready(Mismatch), Write(Build(RemoveTree(d)), current))
        else RunResult(Ready(Match), Load(d))
      else RunResult(Ready(NoRecord), Write(Build(d), current))
    else RunResult(Ready(NoPersistence), Write(Build(d.(storeDir := true)), current))
  }

  /** main.py:94-99: load the store when `chroma_db` exists, else build it. */
  function Reopen(d: Disk): (r: Disk)
    ensures r.storeDir && r.record == d.record
    ensures r.builds == if d.storeDir then d.builds else d.builds + 1
  {
    if d.storeDir then Load(d) else Build(d)
  }

  /** main.py:73-99: the tree, then (unless it raised) the final reopen. */
  function Sync(globals: set<string>, d: Disk, current: string): (r: RunResult)
    ensures d.Valid() ==> r.disk.Valid()
    ensures r.outcome.NameError? <==> Classify(d, current) == Mismatch && "shutil" !in globals
    ensures r.outcome.NameError? ==> r.outcome.name == "shutil" && r.disk == d
    ensures r.outcome.Ready? ==>
              && r.outcome.branch == Classify(d, current)
              && r.disk.storeDir
              && r.disk.record == Some(current)
              && r.disk.vectorstore == Loaded
    ensures r.disk.builds == if r.outcome.Ready? && r.outcome.branch != Match then d.builds + 1 else d.builds
    ensures r.outcome == Ready(Match) ==> r.disk == d.(vectorstore := Loaded)
  {
    var t := Decide(globals, d, current);
    if t.outcome.NameError? then t else RunResult(t.outcome, Reopen(t.disk))
  }

  /** The fallback build at main.py:97-99 never runs: every branch of the tree
      that does not raise leaves `chroma_db` in place. */
  lemma FallbackNeverBuilds(globals: set<string>, d: Disk, current: string)
    requires Decide(globals, d, current).outcome.Ready?
    ensures Reopen(Decide(globals, d, current).disk) == Load(Decide(globals, d, current).disk)
  {
  }

  /** A new process started on an unchanged directory reuses the store: no
      build, and the state is left as the first run left it. The new process
      starts with `vectorstore` unassigned. */
  lemma RerunReuses(globals: set<string>, d: Disk, current: string)
    requires Sync(globals, d, current).outcome.Ready?
    ensures Sync(globals, Sync(globals, d, current).disk.(vectorstore := Unset), current)
         == RunResult(Ready(Match), Sync(globals, d, current).disk)
  {
  }

  /** A restart after a run that succeeded builds nothing when the document
      directory holds the same PDF files with the same modification times, in
      whatever order it lists them and whatever other files sit beside them.
      The new process starts with `vectorstore` unassigned. */
  lemma RestartWithSamePdfsReuses(globals: set<string>, d: Disk, before: Directory, after: Directory, sha: Hasher)
    requires before.Valid() && after.Valid()
    requires multiset(PdfNames(before.listing)) == multiset(PdfNames(after.listing))
    requires forall n :: n in before.listing && n in after.listing && IsPdf(n) ==> before.mtime[n] == after.mtime[n]
    requires Sync(globals, d, Fingerprint(before, sha)).outcome.Ready?
    ensures Sync(globals, Sync(globals, d, Fingerprint(before, sha)).disk.(vectorstore := Unset), Fingerprint(after, sha))
         == RunResult(Ready(Match), Sync(globals, d, Fingerprint(before, sha)).disk)
  {
    SamePdfEntriesSameInput(before, after);
  }

  /** As written, every run that finds a stale record stops at main.py:78
      with a NameError and leaves the state as it found it. */
  lemma MismatchRaisesAsWritten(d: Disk, current: string)
    requires Classify(d, current) == Mismatch
    ensures Sync(SourceImports(), d, current) == RunResult(NameError("shutil"), d)
  {
  }

  /** As written, a stale record stops the program at main.py:78 with a
      NameError before anything is removed, built or written; with `shutil`
      bound, the same state is wiped, rebuilt once and re-recorded. */
  lemma MismatchAsWritten()
    ensures Sync(SourceImports(), Disk(true, Some("stale"), 0, Unset), "fresh")
         == RunResult(NameError("shutil"), Disk(true, Some("stale"), 0, Unset))
    ensures Sync(SourceImports() + {"shutil"}, Disk(true, Some("stale"), 0, Unset), "fresh")
         == RunResult(Ready(Mismatch), Disk(true, Some("fresh"), 1, Loaded))
  {
  }

  /** With `import shutil` added, every run ends with the store ready, the
      record holding the current fingerprint, and exactly one build unless
      the record already matched. */
  lemma FixedSyncAlwaysReady(d: Disk, current: string)
    ensures Sync(SourceImports() + {"shutil"}, d, current).outcome == Ready(Classify(d, current))
    ensures Sync(SourceImports() + {"shutil"}, d, current).disk.record == Some(current)
    ensures Sync(SourceImports() + {"shutil"}, d, current).disk.builds
         == if Classify(d, current) == Match then d.builds else d.builds + 1
  {
  }

  /** The process's view of the working directory, updated in place by the
      calls main.py makes. */
  class Workspace {
    var storeDir: bool
    var record: Option<string>
    var builds: nat
    var vectorstore: Store

    function State(): Disk
      reads this
    {
      Disk(storeDir, record, builds, vectorstore)
    }

    constructor (d: Disk)
      ensures State() == d
    {
      storeDir, record, builds, vectorstore := d.storeDir, d.record, d.builds, d.vectorstore;
    }

    /** `os.makedirs('chroma_db', exist_ok=True)`. */
    method MakeStoreDir()
      modifies this
      ensures State() == old(State()).(storeDir := true)
    {
      storeDir := true;
    }

    method BuildStore()
      modifies this
      ensures State() == Build(old(State()))
    {
      storeDir, builds, vectorstore := true, builds + 1, Built;
    }

    method LoadStore()
      modifies this
      ensures State() == Load(old(State()))
    {
      vectorstore := Loaded;
    }

    /** `open(hash_file, 'r').read()`. */
    method ReadRecord() returns (text: string)
      requires record.Some?
      ensures text == record.value
    {
      text := record.value;
    }

    /** `open(hash_file, 'w')` needs `chroma_db` to exist. */
    method WriteRecord(text: string)
      requires storeDir
      modifies this
      ensures State() == Write(old(State()), text)
    {
      record := Some(text);
    }

    /** `shutil.rmtree('chroma_db')`: the name is looked up first, and an
        unbound name raises before anything is removed. */
    method RemoveStoreDir(globals: set<string>) returns (unbound: Option<string>)
      modifies this
      ensures unbound == if "shutil" in globals then None else Some("shutil")
      ensures State() == if "shutil" in globals then RemoveTree(old(State())) else old(State())
    {
      if "shutil" !in globals {
        return Some("shutil");
      }
      storeDir, record := false, None;
      unbound := None;
    }

    /** main.py:94-99. */
    method ReopenStore()
      modifies this
      ensures State() == Reopen(old(State()))
    {
      if storeDir {
        LoadStore();
      } else {
        BuildStore();
      }
    }

    /** main.py:70-99: fingerprint the directory, run the tree, reopen. */
    method Synchronize(globals: set<string>, docs: Directory, sha: Hasher) returns (outcome: Outcome)
      requires docs.Valid() && State().Valid()
      modifies this
      ensures State().Valid()
      ensures RunResult(outcome, State()) == Sync(globals, old(State()), Fingerprint(docs, sha))
    {
      var currentHash := GetPdfHash(docs, sha);
      if storeDir {
        if record.Some? {
          var savedHash := ReadRecord();
          if savedHash != currentHash {
            var unbound := RemoveStoreDir(globals);
            if unbound.Some? {
              return NameError(unbound.value);
            }
            BuildStore();
            WriteRecord(currentHash);
            outcome := Ready(Mismatch);
          } else {
            LoadStore();
            outcome := Ready(Match);
          }
        } else {
          BuildStore();
          WriteRecord(currentHash);
          outcome := Ready(NoRecord);
        }
      } else {
        MakeStoreDir();
        BuildStore();
        WriteRecord(currentHash);
        outcome := Ready(NoPersistence);
      }
      ReopenStore();
    }
  }
}
