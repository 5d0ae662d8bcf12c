/** `get_pdf_hash` (main.py:28-35): the fingerprint of the document directory
    that decides whether the persisted vector store is stale.

    SHA-256 is not modelled: it is the parameter `sha`, any function from the
    bytes fed to the hash object to its hex digest, and every property below
    holds whichever function that is. All properties are therefore stated about
    the bytes fed to the hash; equal inputs give equal digests, and nothing here
    claims that different inputs give different digests. */
module PdfHash {
  import opened Utf8
  import opened FileNames

  /** `hashlib.sha256` followed by `hexdigest()`, as a function of all bytes fed. */
  type Hasher = seq<Byte> -> string

  /** What `get_pdf_hash` observes of a directory: the names in the order
      `os.listdir` returns them, and for each entry the text
      `str(os.path.getmtime(path))`, kept opaque. */
  datatype Directory = Directory(listing: seq<string>, mtime: map<string, string>)
  {
    /** Every listed entry has a modification time. */
    predicate Valid()
    {
      forall n :: n in listing ==> n in mtime
    }
  }

  /** A `hashlib.sha256()` object. Feeding data in several `update` calls is
      the same as feeding their concatenation, so the object is the sequence
      of bytes fed so far. */
  class HashObject {
    const digestOf: Hasher
    var fed: seq<Byte>

    constructor (digestOf: Hasher)
      ensures this.digestOf == digestOf && fed == []
    {
      this.digestOf := digestOf;
      fed := [];
    }

    method Update(data: seq<Byte>)
      modifies this
      ensures fed == old(fed) + data
    {
      fed := fed + data;
    }

    method HexDigest() returns (h: string)
      ensures h == digestOf(fed)
    {
      h := digestOf(fed);
    }
  }

  /** The bytes fed for a list of names: for each name in turn, its UTF-8
      bytes and then the UTF-8 bytes of its modification-time text. */
  function HashInput(names: seq<string>, mtime: map<string, string>): (r: seq<Byte>)
    requires forall n :: n in names ==> n in mtime
    ensures names == [] ==> r == []
  {
    if names == [] then []
    else Encode(names[0]) + Encode(mtime[names[0]]) + HashInput(names[1..], mtime)
  }

  /** The bytes `get_pdf_hash` feeds for a directory: the PDF names, taken
      from the sorted listing. */
  function FingerprintInput(dir: Directory): (r: seq<Byte>)
    requires dir.Valid()
    ensures r == Encode(Text(PdfNames(SortNames(dir.listing)), dir.mtime))
    ensures (forall n :: n in dir.listing ==> !IsPdf(n)) ==> r == []
  {
    var names := PdfNames(SortNames(dir.listing));
    HashInputIsEncodedText(names, dir.mtime);
    NoPdfNames(SortNames(dir.listing));
    HashInput(names, dir.mtime)
  }

  /** The digest `get_pdf_hash` returns. A directory without PDF entries
      fingerprints as the hash of no bytes. */
  function Fingerprint(dir: Directory, sha: Hasher): (r: string)
    requires dir.Valid()
    ensures (forall n :: n in dir.listing ==> !IsPdf(n)) ==> r == sha([])
  {
    sha(FingerprintInput(dir))
  }

  /** main.py:28-35: a fresh hash object, fed in a loop over the sorted
      listing, two `update` calls per PDF name. */
  method GetPdfHash(dir: Directory, sha: Hasher) returns (digest: string)
    requires dir.Valid()
    ensures digest == Fingerprint(dir, sha)
  {
    var hashObj := new HashObject(sha);
    var names := SortNames(dir.listing);
    for i := 0 to |names|
      invariant hashObj.digestOf == sha
      invariant forall n :: n in PdfNames(names[..i]) ==> n in dir.mtime
      invariant hashObj.fed == HashInput(PdfNames(names[..i]), dir.mtime)
    {
      var filename := names[i];
      FeedStep(names, i, dir.mtime);
      if IsPdf(filename) {
        hashObj.Update(Encode(filename));
        hashObj.Update(Encode(dir.mtime[filename]));
      }
    }
    assert names[..|names|] == names;
    digest := hashObj.HexDigest();
  }

  /** One turn of the loop of GetPdfHash: the next sorted name either adds its
      two parts to the hash input or, not being a PDF name, nothing. */
  lemma FeedStep(names: seq<string>, i: nat, mtime: map<string, string>)
    requires i < |names|
    requires forall n :: n in names ==> n in mtime
    ensures forall n :: n in PdfNames(names[..i + 1]) ==> n in mtime
    ensures HashInput(PdfNames(names[..i + 1]), mtime)
         == if IsPdf(names[i])
            then HashInput(PdfNames(names[..i]), mtime) + Encode(names[i]) + Encode(mtime[names[i]])
            else HashInput(PdfNames(names[..i]), mtime)
  {
    var prefix, x := names[..i], names[i];
    var p := PdfNames(prefix);
    assert forall n :: n in p ==> n in mtime by {
      forall n | n in p ensures n in mtime {
        var j :| 0 <= j < |prefix| && prefix[j] == n;
        assert names[j] == n;
      }
    }
    assert PdfNames(names[..i + 1]) == p + (if IsPdf(x) then [x] else []) by {
      assert names[..i + 1] == prefix + [x];
      PdfNamesAppend(prefix, x);
    }
    if IsPdf(x) {
      HashInputAppend(p, x, mtime);
    } else {
      assert p + [] == p;
    }
  }

  lemma {:induction false} HashInputAppend(names: seq<string>, n: string, mtime: map<string, string>)
    requires forall k :: k in names ==> k in mtime
    requires n in mtime
    ensures HashInput(names + [n], mtime) == HashInput(names, mtime) + Encode(n) + Encode(mtime[n])
  {
    if names == [] {
      assert names + [n] == [n];
    } else {
      var k, rest := names[0], names[1..];
      var head := Encode(k) + Encode(mtime[k]);
      assert (names + [n])[0] == k;
      assert (names + [n])[1..] == rest + [n];
      assert HashInput(names + [n], mtime) == head + HashInput(rest + [n], mtime);
      HashInputAppend(rest, n, mtime);
      SeqAssoc(head, HashInput(rest, mtime), Encode(n), Encode(mtime[n]));
    }
  }

  lemma SeqAssoc(a: seq<Byte>, b: seq<Byte>, c: seq<Byte>, d: seq<Byte>)
    ensures a + (b + c + d) == a + b + c + d
  {
  }

  /** Only the modification times of the listed names matter. */
  lemma {:induction false} HashInputAgree(names: seq<string>, m1: map<string, string>, m2: map<string, string>)
    requires forall n :: n in names ==> n in m1 && n in m2 && m1[n] == m2[n]
    ensures HashInput(names, m1) == HashInput(names, m2)
  {
    if names != [] {
      HashInputAgree(names[1..], m1, m2);
    }
  }

  /** The hash input of two directories is the same when they hold the same
      PDF names with the same modification times, whatever order they are
      listed in and whatever other entries they hold. */
  lemma SamePdfEntriesSameInput(d1: Directory, d2: Directory)
    requires d1.Valid() && d2.Valid()
    requires multiset(PdfNames(d1.listing)) == multiset(PdfNames(d2.listing))
    requires forall n :: n in d1.listing && n in d2.listing && IsPdf(n) ==> d1.mtime[n] == d2.mtime[n]
    ensures FingerprintInput(d1) == FingerprintInput(d2)
  {
    SortedPdfNamesCanonical(d1.listing, d2.listing);
    var names := PdfNames(SortNames(d1.listing));
    forall n | n in names ensures n in d1.mtime && n in d2.mtime && d1.mtime[n] == d2.mtime[n] {
      assert n in multiset(SortNames(d1.listing));
      assert n in multiset(SortNames(d2.listing));
    }
    HashInputAgree(names, d1.mtime, d2.mtime);
  }

  /** Reordering the listing (as `os.listdir` may) leaves the fingerprint alone. */
  lemma ListingOrderIrrelevant(dir: Directory, listing: seq<string>, sha: Hasher)
    requires dir.Valid()
    requires multiset(listing) == multiset(dir.listing)
    ensures Directory(listing, dir.mtime).Valid()
    ensures Fingerprint(Directory(listing, dir.mtime), sha) == Fingerprint(dir, sha)
  {
    var d := Directory(listing, dir.mtime);
    forall n | n in listing ensures n in dir.mtime {
      assert n in multiset(dir.listing);
    }
    forall x ensures multiset(PdfNames(listing))[x] == multiset(PdfNames(dir.listing))[x] {
      PdfNamesCount(listing, x);
      PdfNamesCount(dir.listing, x);
    }
    SamePdfEntriesSameInput(d, dir);
  }

  /** An entry whose name does not end in ".pdf" does not contribute. */
  lemma NonPdfEntryIgnored(dir: Directory, name: string, mtime: string, sha: Hasher)
    requires dir.Valid()
    requires !IsPdf(name)
    ensures Directory(dir.listing + [name], dir.mtime[name := mtime]).Valid()
    ensures Fingerprint(Directory(dir.listing + [name], dir.mtime[name := mtime]), sha) == Fingerprint(dir, sha)
  {
    var d := Directory(dir.listing + [name], dir.mtime[name := mtime]);
    PdfNamesAppend(dir.listing, name);
    SamePdfEntriesSameInput(d, dir);
  }

  /** The text whose UTF-8 bytes are the hash input: name, modification time,
      next name, ... with nothing in between. */
  function Text(names: seq<string>, mtime: map<string, string>): string
    requires forall n :: n in names ==> n in mtime
  {
    if names == [] then "" else names[0] + mtime[names[0]] + Text(names[1..], mtime)
  }

  /** The four `update` calls per pair feed exactly the UTF-8 bytes of the
      concatenated text. */
  lemma {:induction false} HashInputIsEncodedText(names: seq<string>, mtime: map<string, string>)
    requires forall n :: n in names ==> n in mtime
    ensures HashInput(names, mtime) == Encode(Text(names, mtime))
  {
    if names != [] {
      var n := names[0];
      HashInputIsEncodedText(names[1..], mtime);
      EncodeAppend(n + mtime[n], Text(names[1..], mtime));
      EncodeAppend(n, mtime[n]);
    }
  }

  /** A longer modification-time text for `n` makes the hash input longer
      when `n` is hashed, and never shorter. */
  lemma {:induction false} HashInputLonger(names: seq<string>, mtime: map<string, string>, n: string, t: string)
    requires forall k :: k in names ==> k in mtime
    requires n in mtime
    requires |Encode(mtime[n])| < |Encode(t)|
    ensures |HashInput(names, mtime)| <= |HashInput(names, mtime[n := t])|
    ensures n in names ==> |HashInput(names, mtime)| < |HashInput(names, mtime[n := t])|
  {
    if names != [] {
      var k, rest := names[0], names[1..];
      var touched := mtime[n := t];
      HashInputLonger(rest, mtime, n, t);
      assert n in names ==> k == n || n in rest;
      assert |HashInput(names, touched)| == |Encode(k)| + |Encode(touched[k])| + |HashInput(rest, touched)|;
      assert |HashInput(names, mtime)| == |Encode(k)| + |Encode(mtime[k])| + |HashInput(rest, mtime)|;
    }
  }

  lemma {:induction false} TouchSameLength(names: seq<string>, mtime: map<string, string>, n: string, t: string)
    requires forall k :: k in names ==> k in mtime
    requires n in names
    requires Encode(t) != Encode(mtime[n]) && |Encode(t)| == |Encode(mtime[n])|
    ensures HashInput(names, mtime[n := t]) != HashInput(names, mtime)
  {
    var k := names[0];
    var x := HashInput(names, mtime[n := t]);
    var y := HashInput(names, mtime);
    if k == n {
      var lo := |Encode(n)|;
      var hi := lo + |Encode(t)|;
      assert x[lo..hi] == Encode(t);
      assert y[lo..hi] == Encode(mtime[n]);
    } else {
      var p := Encode(k) + Encode(mtime[k]);
      assert n in names[1..];
      TouchSameLength(names[1..], mtime, n, t);
      assert x[|p|..] == HashInput(names[1..], mtime[n := t]);
      assert y[|p|..] == HashInput(names[1..], mtime);
    }
  }

  lemma HashInputConsLength(n: string, names: seq<string>, mtime: map<string, string>)
    requires n in mtime && forall k :: k in names ==> k in mtime
    ensures |HashInput([n] + names, mtime)| == |Encode(n)| + |Encode(mtime[n])| + |HashInput(names, mtime)|
  {
    assert ([n] + names)[0] == n && ([n] + names)[1..] == names;
  }

  /** Inserting a PDF name into a sorted list lengthens the hash input by that
      name's bytes and its modification time's bytes, wherever it lands. */
  lemma {:induction false} InsertLengthensInput(x: string, s: seq<string>, mtime: map<string, string>)
    requires Sorted(s) && IsPdf(x)
    requires x in mtime && forall n :: n in s ==> n in mtime
    ensures forall n :: n in PdfNames(Insert(x, s)) ==> n in mtime
    ensures |HashInput(PdfNames(Insert(x, s)), mtime)|
         == |HashInput(PdfNames(s), mtime)| + |Encode(x)| + |Encode(mtime[x])|
  {
    if s == [] {
      assert PdfNames([x]) == [x] + PdfNames([]);
      HashInputConsLength(x, [], mtime);
    } else if Less(s[0], x) {
      var rest := Insert(x, s[1..]);
      var t := [s[0]] + rest;
      assert t[0] == s[0] && t[1..] == rest;
      assert s == [s[0]] + s[1..];
      InsertLengthensInput(x, s[1..], mtime);
      if IsPdf(s[0]) {
        assert PdfNames(t) == [s[0]] + PdfNames(rest);
        assert PdfNames(s) == [s[0]] + PdfNames(s[1..]);
        HashInputConsLength(s[0], PdfNames(rest), mtime);
        HashInputConsLength(s[0], PdfNames(s[1..]), mtime);
      } else {
        assert PdfNames(t) == PdfNames(rest);
        assert PdfNames(s) == PdfNames(s[1..]);
      }
    } else {
      var t := [x] + s;
      assert t[0] == x && t[1..] == s;
      assert PdfNames(t) == [x] + PdfNames(s);
      HashInputConsLength(x, PdfNames(s), mtime);
    }
  }

  /** Adding a PDF file to the directory lengthens the hash input by the bytes
      of its name and of its modification-time text, so the input changes.
      Read the other way, removing a PDF file shortens it likewise. */
  lemma PdfEntryAddedChangesInput(dir: Directory, name: string, t: string)
    requires dir.Valid()
    requires IsPdf(name) && name !in dir.listing
    ensures Directory(dir.listing + [name], dir.mtime[name := t]).Valid()
    ensures |FingerprintInput(Directory(dir.listing + [name], dir.mtime[name := t]))|
         == |FingerprintInput(dir)| + |Encode(name)| + |Encode(t)|
    ensures FingerprintInput(Directory(dir.listing + [name], dir.mtime[name := t])) != FingerprintInput(dir)
  {
    var d := Directory(dir.listing + [name], dir.mtime[name := t]);
    var front := [name] + dir.listing;
    assert front[0] == name && front[1..] == dir.listing;
    assert multiset(front) == multiset(d.listing);
    var sorted := SortNames(dir.listing);
    SortedUnique(SortNames(front), SortNames(d.listing));
    HashInputAgree(PdfNames(sorted), dir.mtime, d.mtime);
    InsertLengthensInput(name, sorted, d.mtime);
  }

  /** Touching a PDF file (changing its modification-time text) changes the
      bytes fed to the hash. */
  lemma TouchChangesInput(dir: Directory, name: string, mtime: string)
    requires dir.Valid()
    requires name in dir.listing && IsPdf(name)
    requires mtime != dir.mtime[name]
    ensures Directory(dir.listing, dir.mtime[name := mtime]).Valid()
    ensures FingerprintInput(Directory(dir.listing, dir.mtime[name := mtime])) != FingerprintInput(dir)
  {
    var names := PdfNames(SortNames(dir.listing));
    assert name in names;
    TouchChangesHashInput(names, dir.mtime, name, mtime);
  }

  lemma TouchChangesHashInput(names: seq<string>, mtime: map<string, string>, n: string, t: string)
    requires forall k :: k in names ==> k in mtime
    requires n in names && t != mtime[n]
    ensures HashInput(names, mtime[n := t]) != HashInput(names, mtime)
  {
    var e, e' := Encode(mtime[n]), Encode(t);
    assert e != e' by {
      if e == e' {
        EncodeInjective(mtime[n], t);
      }
    }
    if |e| == |e'| {
      TouchSameLength(names, mtime, n, t);
    } else if |e| < |e'| {
      HashInputLonger(names, mtime, n, t);
    } else {
      var touched := mtime[n := t];
      assert touched[n := mtime[n]] == mtime;
      HashInputLonger(names, touched, n, mtime[n]);
    }
  }
}
