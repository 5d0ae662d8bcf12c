# Index freshness check of the Furhat concierge, in Dafny

The concierge (`main.py`) answers spoken questions from PDF documents kept in a
Chroma vector store persisted under `chroma_db`. Embedding the documents is the
expensive step, so at start-up the program decides whether the persisted store
is still current. This project models that decision and proves its properties.

- **Fingerprint** (`get_pdf_hash`, main.py:28-35). The directory listing is sorted.
  Only names ending in `.pdf` are kept. For each one, the UTF-8 bytes of the name
  and then of `str(os.path.getmtime(path))` are fed to one SHA-256 object, and
  the hex digest is returned.
- **Synchronisation** (main.py:70-99). The fingerprint is compared with the text
  of `chroma_db/pdf_hash.txt`. The store is built when `chroma_db` is missing
  (after creating it) or the record is missing. It is reused when the record
  equals the fingerprint. Otherwise it is meant to be wiped and rebuilt. Every
  build rewrites the record. Finally the store is reopened from disk, or built
  if `chroma_db` is missing.

Files:

- `wrappers.dfy`: `Option`.
- `utf8.dfy` (module `Utf8`): `str.encode()` as UTF-8 over Unicode scalar values,
  with a strict decoder. The round trip shows the encoding is injective.
- `file_names.dfy` (module `FileNames`): Python's `str` ordering and `sorted`.
  Sorting is modelled by insertion sort; `SortedUnique` shows any correct sort
  gives the same list. Also the `endswith('.pdf')` filter.
- `fingerprint.dfy` (module `PdfHash`): the hash object as a class. `HashInput`
  and `FingerprintInput` are the specification of the fed bytes. `GetPdfHash`
  is the loop, proved against them, followed by lemmas on order, filtering,
  emptiness, adding a file and touching a file.
- `framed_hash.dfy` (module `FramedHash`): two directories with different PDF
  files that feed the hash the same bytes, and a framed input, which closes each
  piece with a byte UTF-8 never produces, proved to tell apart any two
  directories whose PDF names or their modification times differ.
- `index_sync.dfy` (module `IndexSync`): the state the tree reads and changes
  (`Disk`), the pure specification of one run (`Decide`, `Reopen`, `Sync`), and a
  `Workspace` class whose methods perform the calls of main.py one by one.
  `Workspace.Synchronize` is proved to match `Sync`.

SHA-256 is the parameter `sha: Hasher`, an arbitrary function from the bytes fed
to the digest text. Every result holds for any such function. Equal inputs give
equal digests, and nothing is claimed about distinct inputs. A directory is a
listing, in the order `os.listdir` returns it, plus a map from each name to its
modification-time text, which is kept opaque.

Python resolves `shutil` at run time. So the tree takes `globals`, a set of
bound global names, and looks only at whether `"shutil"` is among them. Other
globals bound by then, such as `warn`, `get_pdf_hash`, `directory`, `texts`,
`embeddings` and `current_hash`, make no difference to the tree and are left
out. The program as written is `SourceImports()`: the names bound by main.py:6
and 12-25, which do not include `shutil`. The version with `import shutil` added
is `SourceImports() + {"shutil"}`.

## Model

| member | source | states |
|---|---|---|
| `Utf8.Encode` | main.py:33-34 | `str.encode()`: the encoding is at least as long as the text and at most four times as long. So only the empty string encodes to no bytes. |
| `Utf8.EncodeAscii` | main.py:33-34 | ASCII text, such as a float's `str`, encodes to its code points, one byte per character. |
| `Utf8.EncodeChar` | main.py:33 | Each character becomes 1 to 4 bytes: a lead byte announcing the length, then continuation bytes. ASCII characters are one byte equal to their code point. |
| `Utf8.EncodeAppend` | main.py:33-34 | Encoding a concatenation equals concatenating the encodings. Feeding the name and then the mtime text in two `update` calls feeds the bytes of the joined text. |
| `Utf8.DecodeEncode` | main.py:33-34 | Strict UTF-8 decoding of `s.encode()` gives back `s`, so `encode()` loses nothing. |
| `Utf8.EncodeInjective` | main.py:33-34 | Two strings with the same UTF-8 bytes are equal. |
| `FileNames.Less` | main.py:30 | Python's `<` on `str`, which `sorted` uses: code points compared left to right. A proper prefix comes before the longer string, and nothing comes before the empty string. |
| `FileNames.LessTotal` | main.py:30 | Python's string order, used by `sorted`, relates any two distinct names one way or the other. |
| `FileNames.LessTransitive` | main.py:30 | Python's string order is transitive. |
| `FileNames.Insert` | main.py:30 | Inserting a name into a sorted list keeps it sorted and adds exactly that name. |
| `FileNames.SortNames` | main.py:30 | `sorted(os.listdir(...))` is sorted and is a permutation of the listing. |
| `FileNames.SortedUnique` | main.py:30 | Two sorted lists with the same names are equal. So the sorted listing does not depend on the order `os.listdir` returns. |
| `FileNames.IsPdf` | main.py:31 | `endswith('.pdf')`: true exactly when the name is some stem, possibly empty, followed by the lower-case `.pdf`. So the test is case-sensitive and holds for `.pdf` itself. |
| `FileNames.PdfNames` | main.py:31 | A name survives the filter exactly when it is listed and ends in `.pdf`. |
| `FileNames.NoPdfNames` | main.py:31 | The filter leaves nothing exactly when no listed name ends in `.pdf`. |
| `FileNames.PdfNamesAppend` | main.py:30-31 | Filtering one more name appends it exactly when it ends in `.pdf`. This is the step the loop takes. |
| `FileNames.PdfNamesCount` | main.py:31 | The filter keeps every occurrence of a PDF name and drops every other name. |
| `FileNames.PdfNamesSorted` | main.py:30-31 | Filtering a sorted list leaves it sorted. |
| `FileNames.SortedPdfNamesCanonical` | main.py:30-31 | The names the loop hashes (sorted, then filtered) are decided by the listing's PDF names alone, whatever their order. |
| `PdfHash.HashObject.constructor` | main.py:29 | A fresh `hashlib.sha256()` has been fed nothing. |
| `PdfHash.HashObject.Update` | main.py:33-34 | `update` appends its bytes to everything fed so far. |
| `PdfHash.HashObject.HexDigest` | main.py:35 | The digest is the hash of all bytes fed. |
| `PdfHash.HashInput` | main.py:30-34 | The bytes fed for a list of names, in order: each name's UTF-8 bytes, then its mtime text's. No names feed no bytes. `HashInputAppend` and `HashInputIsEncodedText` state the rest. |
| `PdfHash.FingerprintInput` | main.py:29-34 | The bytes `get_pdf_hash` feeds are the UTF-8 encoding of the sorted PDF names, each followed by its mtime text. With no PDF names, no bytes are fed. |
| `PdfHash.Fingerprint` | main.py:28-35 | The returned digest. A directory without PDF names fingerprints as the hash of the empty byte sequence. |
| `PdfHash.GetPdfHash` | main.py:28-35 | The loop over the sorted listing returns the hash of `HashInput` over the sorted PDF names: name bytes, then mtime bytes, for each name in turn. |
| `PdfHash.FeedStep` | main.py:30-34 | One loop turn extends the hash input by the name and mtime bytes for a PDF name, and by nothing for any other name. |
| `PdfHash.HashInputAppend` | main.py:33-34 | Hashing one more name appends its UTF-8 bytes followed by those of its mtime text. |
| `PdfHash.HashInputAgree` | main.py:34 | Only the mtimes of the hashed names affect the input. |
| `PdfHash.HashInputIsEncodedText` | main.py:33-35 | The hash input is exactly the UTF-8 encoding of name₁ mtime₁ name₂ mtime₂ … with no separators. |
| `PdfHash.SamePdfEntriesSameInput` | main.py:30-34 | Two directories with the same PDF names and the same mtimes for them give the same hash input. Listing order and non-PDF entries do not matter. |
| `PdfHash.ListingOrderIrrelevant` | main.py:30 | Permuting the listing leaves the fingerprint unchanged. |
| `PdfHash.NonPdfEntryIgnored` | main.py:31 | Adding an entry whose name does not end in `.pdf`, with any mtime, leaves the fingerprint unchanged. |
| `PdfHash.InsertLengthensInput` | main.py:30-34 | Putting one more PDF name into the sorted listing, wherever it lands, lengthens the hash input by exactly that name's bytes and its mtime's bytes. |
| `PdfHash.PdfEntryAddedChangesInput` | main.py:30-34 | Adding a PDF file to the directory lengthens the hash input by the bytes of its name (at least four) and of its mtime text, so the input changes. Read the other way, removing a PDF file shortens it. |
| `PdfHash.TouchChangesInput` | main.py:34 | Giving a listed PDF file a different mtime text changes the bytes fed to the hash. |
| `IndexSync.SourceImports` | main.py:6-25 | The names the imports bind. They include `hashlib`, `os` and `Chroma`, and they do not include `shutil`. |
| `IndexSync.Build` | main.py:90 | `Chroma.from_documents(..., persist_directory="chroma_db")` leaves `chroma_db` existing and counts one build. It leaves the record alone and assigns a built store to `vectorstore`. |
| `IndexSync.Load` | main.py:83 | `Chroma(..., persist_directory="chroma_db")` only assigns the loaded store to `vectorstore`. |
| `IndexSync.Write` | main.py:80-81 | Writing `pdf_hash.txt` makes its text the given string and changes nothing else. The state stays consistent when `chroma_db` exists. |
| `IndexSync.RemoveTree` | main.py:78 | `shutil.rmtree('chroma_db')` removes the directory and the record inside it. The build count and `vectorstore` are unchanged. |
| `IndexSync.Decide` | main.py:73-92 | Every branch of the tree that does not raise leaves `chroma_db` existing and the record holding the current fingerprint. |
| `IndexSync.Reopen` | main.py:94-99 | The final step leaves `chroma_db` existing and the record unchanged. It builds exactly when `chroma_db` is missing. |
| `IndexSync.Classify` | main.py:73-77 | The branch is NoPersistence exactly when `chroma_db` is missing, NoRecord exactly when it exists without a record file, Match exactly when the record's whole text (untrimmed) equals the fingerprint, and Mismatch for any other record. |
| `IndexSync.Sync` | main.py:73-99 | A run raises NameError(`shutil`) exactly when the record exists and differs from the fingerprint and `shutil` is unbound. The state is then untouched. Otherwise the run took the branch matching the state and ends with `chroma_db` present, record = fingerprint, and the store loaded from disk. It builds once, or not at all when the record matched. A match changes nothing but the `vectorstore` variable. |
| `IndexSync.FallbackNeverBuilds` | main.py:94-99 | After a tree run that does not raise, the final step only loads: the fallback build is unreachable. |
| `IndexSync.RerunReuses` | main.py:73-83 | A new process, started with `vectorstore` unassigned, with the same fingerprint takes the match branch, builds nothing and ends in the state the first run left. |
| `IndexSync.RestartWithSamePdfsReuses` | main.py:70-83 | A restart, with `vectorstore` unassigned, whose directory has the same PDF files and mtimes reuses the store without a build, whatever the listing order or other files. |
| `IndexSync.MismatchRaisesAsWritten` | main.py:77-78 | With the imports as written, every run that finds a stale record raises NameError(`shutil`) and leaves the state unchanged. |
| `IndexSync.MismatchAsWritten` | main.py:77-78 | `shutil` is not among the imported names. With a stale record, the program as written raises NameError and leaves state, record and build count unchanged. With `shutil` bound, the same state is wiped, rebuilt once and re-recorded. |
| `IndexSync.FixedSyncAlwaysReady` | main.py:77-81 | With `import shutil` added, every run ends ready on the branch its state selects, with record = fingerprint. It builds once unless the record matched. |
| `FramedHash.MergedNamesCollide` | main.py:33-34 | `a.pdf` (mtime `1.0`) with `b.pdf` (mtime `2.0`), and a lone `a.pdf1.0b.pdf` (mtime `2.0`), are different PDF files that feed the same bytes. So they get the same fingerprint under every hash function. |
| `FramedHash.MergedFileReusesStaleStore` | main.py:73-96 | As written, once a directory holding `a.pdf` (mtime `1.0`) and `b.pdf` (mtime `2.0`) has been recorded, a new run on the lone `a.pdf1.0b.pdf` (mtime `2.0`) takes the Match branch: it builds nothing and ends with the stale store loaded and every other part of the state as it was. |
| `FramedHash.SameTextSameInput` | main.py:33-34 | Directories whose hashed names and mtimes join to the same text feed the same bytes. |
| `FramedHash.EncodeAvoidsSeparator` | main.py:33 | Correction, not in main.py: no UTF-8 encoding contains the byte 0xFF. |
| `FramedHash.Frame` | main.py:33-34 | Correction, not in main.py: a framed piece is its UTF-8 bytes followed by the separator 0xFF. |
| `FramedHash.FrameSplit` | main.py:33-34 | Correction, not in main.py: when a framed piece leads a byte sequence, both the piece's text and the bytes after it are determined. |
| `FramedHash.FramedInput` | main.py:30-34 | Correction, not in main.py: the input is each name framed, then its mtime text framed. At least two bytes per name. |
| `FramedHash.FramedInputInjective` | main.py:30-34 | Correction, not in main.py: equal framed inputs come from the same name list with the same mtimes. |
| `FramedHash.FramedFingerprintInput` | main.py:29-34 | Correction, not in main.py: the framed input over the sorted PDF names has at least two bytes per PDF name. |
| `FramedHash.FramedInputSeparatesDirectories` | main.py:29-34 | Correction, not in main.py: two directories get the same framed input exactly when they hold the same PDF names with the same mtimes. |
| `FramedHash.MergedNamesSeparated` | main.py:33-34 | Correction, not in main.py: the framed input tells apart the two directories of `MergedNamesCollide`. |
| `IndexSync.Workspace.MakeStoreDir` | main.py:89 | `os.makedirs` creates `chroma_db` and changes nothing else. |
| `IndexSync.Workspace.BuildStore` | main.py:90 | `Chroma.from_documents` leaves `chroma_db` existing, counts one build and sets `vectorstore`. |
| `IndexSync.Workspace.LoadStore` | main.py:83 | Opening the persisted store only sets `vectorstore`. |
| `IndexSync.Workspace.ReadRecord` | main.py:75-76 | Reading the record returns the text last written to it, untrimmed. |
| `IndexSync.Workspace.WriteRecord` | main.py:80-81 | Writing the record replaces its whole text with the fingerprint. |
| `IndexSync.Workspace.RemoveStoreDir` | main.py:78 | When `shutil` is unbound, the call reports NameError and removes nothing. Otherwise it removes `chroma_db` and the record with it. |
| `IndexSync.Workspace.ReopenStore` | main.py:94-99 | Performs `Reopen` on the workspace. |
| `IndexSync.Workspace.Synchronize` | main.py:70-99 | Fingerprints the directory, then performs the tree and the reopen step by step. The outcome and the final state are those `Sync` gives for that fingerprint. |

## Left out

- Robot control (`FurhatRemoteAPI`, `say`, `listen`, `gesture`, `attend`; main.py:45-50, 152-196): remote device I/O.
- PDF loading and chunking (main.py:52-65), the sentence-transformer embeddings (main.py:68) and Chroma's internals: foreign library calls. A build is an abstract counted event that leaves `chroma_db` existing. The documents it indexes are not modelled. So the model does not show that a build in the no-record branch adds to whatever collection is already in `chroma_db`.
- The language model, prompts, retriever and conversation loop (main.py:101-199): network calls with no stateable logic.
- Conversation logging, `load_dotenv`, environment lookups and warning suppression (main.py:1-8, 38-43, 138-140): I/O and configuration.
- SHA-256 itself and its collision resistance: the hash is a parameter. So adding or touching a file is proved to change the hash input, not the digest. The digest's hex form is not modelled.
- The float formatting of `os.path.getmtime` (main.py:34): each mtime text is an opaque string.
- Failures of the calls themselves: `os.listdir` on a missing directory, `getmtime` on a vanished file or broken link, a failing build, a failing record write, a `chroma_db` that is a plain file. The model has no such outcomes.
- File names holding lone surrogates (from undecodable bytes), on which Python's `encode()` raises: a Dafny `char` is always a Unicode scalar value.
- ReadRecord, WriteRecord: `pdf_hash.txt` is opened in text mode (main.py:75, 80, 86, 91). Locale decoding and newline translation on `read()` are not modelled. The record is the text `read()` returns. That equals the text written only because a hex digest is 64 characters from `0-9a-f`, with no line break and nothing outside ASCII. The model's `Hasher` may return any text, and the model still treats the read as returning it unchanged.
- Concurrent changes to the directory or to `chroma_db` during a run.

The lines after main.py:78 show that the stale-record branch is meant to wipe
and rebuild the store: the rebuild at main.py:79 and the record write at
main.py:80-81. As written, the branch raises NameError at main.py:78, because
`shutil` is never imported (main.py:6, 12-25). So the program stops before the
conversation starts. The model follows the code. The intended behaviour is the
`import shutil` instance, below.

## Findings

| source | as written | input that shows it | evidently intended | confidence | as-written member | corrected member |
|---|---|---|---|---|---|---|
| main.py:78 | `shutil.rmtree('chroma_db')` runs without any `import shutil` (main.py:12-25). The stale-record branch raises NameError before removing, rebuilding or rewriting anything. | `chroma_db` exists, `pdf_hash.txt` holds `stale`, the current fingerprint is `fresh` | remove `chroma_db`, build the store once, write the current fingerprint to the record | high; not executed | `IndexSync.MismatchAsWritten` | `IndexSync.FixedSyncAlwaysReady` |
| main.py:33-34 | Each name and its mtime text are fed with nothing between them, so the input does not record where one piece ends. | `a.pdf` (mtime `1.0`) and `b.pdf` (mtime `2.0`), against a lone `a.pdf1.0b.pdf` (mtime `2.0`). Both feed `a.pdf1.0b.pdf2.0`, so a changed directory keeps its digest and the stale store is loaded, not rebuilt (`FramedHash.MergedFileReusesStaleStore`). | the fingerprint changes whenever the PDF names or their mtimes change: each piece is framed, here closed by the byte 0xFF that UTF-8 never produces | high that the inputs coincide, though such names are unlikely in practice; not executed | `FramedHash.MergedNamesCollide` | `FramedHash.FramedInputSeparatesDirectories` |

The fingerprint and the synchronisation keep the input as written, since they
model main.py. The framed input is the correction, proved on its own.
