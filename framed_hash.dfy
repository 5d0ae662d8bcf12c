/** Where one piece of the fingerprint's input ends.

    `get_pdf_hash` feeds each name and each modification-time text with
    nothing between them (main.py:33-34), so the input does not record where
    one piece ends and the next begins. Two directories whose names and times
    join to the same text get the same input, and so the same digest under
    every hash function, without any collision of the hash itself.

    The framed input closes every piece with the byte 0xFF, which UTF-8 never
    produces. It determines the hashed names and their times. */
module FramedHash {
  import opened Utf8
  import opened FileNames
  import opened PdfHash
  import opened Wrappers
  import IndexSync

  /** `a.pdf` modified at `1.0` and `b.pdf` at `2.0`. */
  const TwoFiles: Directory := Directory(["a.pdf", "b.pdf"], map["a.pdf" := "1.0", "b.pdf" := "2.0"])

  /** A single file named after the first file's name and time and the second
      file's name, modified at the second file's time. */
  const MergedFile: Directory := Directory(["a.pdf1.0b.pdf"], map["a.pdf1.0b.pdf" := "2.0"])

  /** As written: the two directories hold different PDF files, yet feed the
      hash the same bytes and so get the same fingerprint. */
  lemma MergedNamesCollide(sha: Hasher)
    ensures TwoFiles.Valid() && MergedFile.Valid()
    ensures PdfNames(TwoFiles.listing) != PdfNames(MergedFile.listing)
    ensures FingerprintInput(TwoFiles) == FingerprintInput(MergedFile)
    ensures Fingerprint(TwoFiles, sha) == Fingerprint(MergedFile, sha)
  {
    TwoFilesHashed();
    MergedFileHashed();
    TwoFilesText();
    MergedFileText();
    DifferentPdfNames();
    SameTextSameInput(TwoFiles, MergedFile);
  }

  /** As written, a store built and recorded for `TwoFiles` is reused as it
      stands once the directory has become `MergedFile`: the run takes the
      Match branch, builds nothing and only loads the stale store. */
  lemma MergedFileReusesStaleStore(globals: set<string>, builds: nat, sha: Hasher)
    ensures IndexSync.Sync(globals, IndexSync.Disk(true, Some(Fingerprint(TwoFiles, sha)), builds, IndexSync.Unset),
                           Fingerprint(MergedFile, sha))
         == IndexSync.RunResult(IndexSync.Ready(IndexSync.Match),
                                IndexSync.Disk(true, Some(Fingerprint(TwoFiles, sha)), builds, IndexSync.Loaded))
  {
    MergedNamesCollide(sha);
  }

  lemma TwoFilesText()
    ensures Text(["a.pdf", "b.pdf"], TwoFiles.mtime) == "a.pdf1.0b.pdf2.0"
  {
    assert ["a.pdf", "b.pdf"][1..] == ["b.pdf"];
    assert ["b.pdf"][1..] == [];
  }

  lemma MergedFileText()
    ensures Text(["a.pdf1.0b.pdf"], MergedFile.mtime) == "a.pdf1.0b.pdf2.0"
  {
    assert ["a.pdf1.0b.pdf"][1..] == [];
  }

  lemma DifferentPdfNames()
    ensures PdfNames(TwoFiles.listing) != PdfNames(MergedFile.listing)
  {
    assert "b.pdf" in PdfNames(TwoFiles.listing) && "b.pdf" !in PdfNames(MergedFile.listing);
  }

  /** Directories whose hashed names and times join to the same text feed the
      hash the same bytes. */
  lemma SameTextSameInput(d1: Directory, d2: Directory)
    requires d1.Valid() && d2.Valid()
    requires Text(PdfNames(SortNames(d1.listing)), d1.mtime) == Text(PdfNames(SortNames(d2.listing)), d2.mtime)
    ensures FingerprintInput(d1) == FingerprintInput(d2)
  {
  }

  lemma TwoFilesHashed()
    ensures PdfNames(SortNames(TwoFiles.listing)) == ["a.pdf", "b.pdf"]
  {
    var l := TwoFiles.listing;
    assert l[0] == "a.pdf" && l[1..] == ["b.pdf"];
    assert SortNames(["b.pdf"]) == ["b.pdf"] by {
      assert ["b.pdf"][1..] == [];
    }
    assert !Less("b.pdf", "a.pdf");
    assert SortNames(l) == ["a.pdf"] + ["b.pdf"];
    assert IsPdf("a.pdf") && IsPdf("b.pdf");
    assert ["a.pdf", "b.pdf"][1..] == ["b.pdf"] && ["b.pdf"][1..] == [];
  }

  lemma MergedFileHashed()
    ensures PdfNames(SortNames(MergedFile.listing)) == ["a.pdf1.0b.pdf"]
  {
    var l := MergedFile.listing;
    assert l[1..] == [];
    assert SortNames(l) == l;
    assert IsPdf("a.pdf1.0b.pdf");
  }

  /** A byte that no UTF-8 sequence contains. */
  const Separator: Byte := 0xFF

  lemma {:induction false} EncodeAvoidsSeparator(s: string)
    ensures Separator !in Encode(s)
  {
    if s != [] {
      var e := EncodeChar(s[0]);
      forall i | 0 <= i < |e| ensures e[i] != Separator {
        if i == 0 {
          assert SequenceLength(e[0]) != 0;
        }
      }
      EncodeAvoidsSeparator(s[1..]);
    }
  }

  /** The UTF-8 bytes of a piece of text, closed by the separator. */
  function Frame(s: string): (r: seq<Byte>)
    ensures |r| == |Encode(s)| + 1 && r[|r| - 1] == Separator
  {
    Encode(s) + [Separator]
  }

  /** The bytes before the first separator. */
  function BeforeSeparator(w: seq<Byte>): (r: seq<Byte>)
    ensures Separator !in r
    ensures |r| <= |w|
  {
    if w == [] || w[0] == Separator then [] else [w[0]] + BeforeSeparator(w[1..])
  }

  lemma {:induction false} BeforeSeparatorOfFrame(e: seq<Byte>, y: seq<Byte>)
    requires Separator !in e
    ensures BeforeSeparator(e + [Separator] + y) == e
  {
    var w := e + [Separator] + y;
    if e == [] {
      assert w[0] == Separator;
    } else {
      assert w[0] == e[0];
      assert w[1..] == e[1..] + [Separator] + y;
      BeforeSeparatorOfFrame(e[1..], y);
      assert e == [e[0]] + e[1..];
    }
  }

  /** A frame can be read back off the front of any byte sequence: both the
      text it holds and what follows it are determined. */
  lemma FrameSplit(a: string, y: seq<Byte>, b: string, z: seq<Byte>)
    requires Frame(a) + y == Frame(b) + z
    ensures a == b && y == z
  {
    var w := Frame(a) + y;
    EncodeAvoidsSeparator(a);
    EncodeAvoidsSeparator(b);
    BeforeSeparatorOfFrame(Encode(a), y);
    BeforeSeparatorOfFrame(Encode(b), z);
    EncodeInjective(a, b);
    assert y == w[|Frame(a)|..];
    assert z == w[|Frame(b)|..];
  }

  /** The corrected input: for each name in turn, the framed name and then its
      framed modification-time text. */
  function FramedInput(names: seq<string>, mtime: map<string, string>): (r: seq<Byte>)
    requires forall n :: n in names ==> n in mtime
    ensures |r| >= 2 * |names|
  {
    if names == [] then []
    else Frame(names[0]) + (Frame(mtime[names[0]]) + FramedInput(names[1..], mtime))
  }

  /** Equal framed inputs come from the same names with the same times. */
  lemma {:induction false} FramedInputInjective(a: seq<string>, ma: map<string, string>, b: seq<string>, mb: map<string, string>)
    requires forall n :: n in a ==> n in ma
    requires forall n :: n in b ==> n in mb
    requires FramedInput(a, ma) == FramedInput(b, mb)
    ensures a == b
    ensures forall n :: n in a ==> ma[n] == mb[n]
  {
    if a != [] && b != [] {
      var ra, rb := FramedInput(a[1..], ma), FramedInput(b[1..], mb);
      FrameSplit(a[0], Frame(ma[a[0]]) + ra, b[0], Frame(mb[b[0]]) + rb);
      FrameSplit(ma[a[0]], ra, mb[b[0]], rb);
      FramedInputInjective(a[1..], ma, b[1..], mb);
      assert a == [a[0]] + a[1..] && b == [b[0]] + b[1..];
    }
  }

  lemma {:induction false} FramedInputAgree(names: seq<string>, m1: map<string, string>, m2: map<string, string>)
    requires forall n :: n in names ==> n in m1 && n in m2 && m1[n] == m2[n]
    ensures FramedInput(names, m1) == FramedInput(names, m2)
  {
    if names != [] {
      FramedInputAgree(names[1..], m1, m2);
    }
  }

  /** The framed input of a directory, over its PDF names in sorted order. */
  function FramedFingerprintInput(dir: Directory): (r: seq<Byte>)
    requires dir.Valid()
    ensures |r| >= 2 * |PdfNames(dir.listing)|
  {
    SortThenFilter(dir.listing);
    assert |PdfNames(SortNames(dir.listing))| == |PdfNames(dir.listing)| by {
      assert |multiset(PdfNames(SortNames(dir.listing)))| == |multiset(PdfNames(dir.listing))|;
    }
    FramedInput(PdfNames(SortNames(dir.listing)), dir.mtime)
  }

  /** Corrected: two directories get the same framed input exactly when they
      hold the same PDF names with the same modification times. */
  lemma FramedInputSeparatesDirectories(d1: Directory, d2: Directory)
    requires d1.Valid() && d2.Valid()
    ensures FramedFingerprintInput(d1) == FramedFingerprintInput(d2)
        <==> && multiset(PdfNames(d1.listing)) == multiset(PdfNames(d2.listing))
             && forall n :: n in d1.listing && IsPdf(n) ==> n in d2.listing && d1.mtime[n] == d2.mtime[n]
  {
    var a, b := PdfNames(SortNames(d1.listing)), PdfNames(SortNames(d2.listing));
    SortThenFilter(d1.listing);
    SortThenFilter(d2.listing);
    if FramedFingerprintInput(d1) == FramedFingerprintInput(d2) {
      FramedInputInjective(a, d1.mtime, b, d2.mtime);
      forall n | n in d1.listing && IsPdf(n) ensures n in d2.listing && d1.mtime[n] == d2.mtime[n] {
        assert n in a;
      }
    }
    if && multiset(PdfNames(d1.listing)) == multiset(PdfNames(d2.listing))
       && forall n :: n in d1.listing && IsPdf(n) ==> n in d2.listing && d1.mtime[n] == d2.mtime[n]
    {
      SortedUnique(a, b);
      forall n | n in a ensures n in d1.mtime && n in d2.mtime && d1.mtime[n] == d2.mtime[n] {
        assert n in multiset(SortNames(d1.listing));
      }
      FramedInputAgree(a, d1.mtime, d2.mtime);
    }
  }

  /** Framing tells the two directories of MergedNamesCollide apart. */
  lemma MergedNamesSeparated()
    ensures FramedFingerprintInput(TwoFiles) != FramedFingerprintInput(MergedFile)
  {
    FramedInputSeparatesDirectories(TwoFiles, MergedFile);
    assert "b.pdf" in TwoFiles.listing && "b.pdf" !in MergedFile.listing;
  }
}
