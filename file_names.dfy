/** The two operations `get_pdf_hash` applies to the names `os.listdir`
    returns: Python's `sorted` over `str` and the test `name.endswith('.pdf')`. */
module FileNames {

  /** Python's `<` on `str`: code points compared left to right, and a proper
      prefix comes before the longer string. */
  function Less(a: string, b: string): (r: bool)
    ensures |a| < |b| && a == b[..|a|] ==> r
    ensures r ==> b != []
  {
    if a == [] then b != []
    else if b == [] then false
    else if a[0] != b[0] then a[0] < b[0]
    else Less(a[1..], b[1..])
  }

  lemma {:induction false} LessIrreflexive(a: string)
    ensures !Less(a, a)
  {
    if a != [] {
      LessIrreflexive(a[1..]);
    }
  }

  lemma {:induction false} LessTransitive(a: string, b: string, c: string)
    requires Less(a, b) && Less(b, c)
    ensures Less(a, c)
  {
    if a != [] && a[0] == b[0] && b[0] == c[0] {
      LessTransitive(a[1..], b[1..], c[1..]);
    }
  }

  /** Any two distinct names are ordered one way or the other. */
  lemma {:induction false} LessTotal(a: string, b: string)
    requires a != b
    ensures Less(a, b) || Less(b, a)
  {
    if a != [] && b != [] && a[0] == b[0] {
      assert a == [a[0]] + a[1..] && b == [b[0]] + b[1..];
      LessTotal(a[1..], b[1..]);
    }
  }

  lemma {:induction false} LessAsymmetric(a: string, b: string)
    requires Less(a, b)
    ensures !Less(b, a)
  {
    if a != [] && b != [] && a[0] == b[0] {
      LessAsymmetric(a[1..], b[1..]);
    }
  }

  /** `a` sorts no later than `b`. */
  predicate AtMost(a: string, b: string)
  {
    !Less(b, a)
  }

  lemma AtMostTransitive(a: string, b: string, c: string)
    requires AtMost(a, b) && AtMost(b, c)
    ensures AtMost(a, c)
  {
    if Less(c, a) {
      if a == b {
      } else {
        LessTotal(a, b);
        LessTransitive(c, a, b);
      }
    }
  }

  predicate Sorted(s: seq<string>)
  {
    forall i, j :: 0 <= i < j < |s| ==> AtMost(s[i], s[j])
  }

  /** A name that sorts no later than every element of a sorted list can lead it. */
  lemma SortedCons(x: string, s: seq<string>)
    requires Sorted(s)
    requires forall y :: y in s ==> AtMost(x, y)
    ensures Sorted([x] + s)
  {
    var r := [x] + s;
    forall i, j | 0 <= i < j < |r| ensures AtMost(r[i], r[j]) {
      if i == 0 {
        assert r[j] == s[j - 1];
      } else {
        assert r[i] == s[i - 1] && r[j] == s[j - 1];
      }
    }
  }

  function Insert(x: string, s: seq<string>): (r: seq<string>)
    requires Sorted(s)
    ensures Sorted(r)
    ensures multiset(r) == multiset(s) + multiset{x}
    ensures forall n :: n in r <==> n == x || n in s
  {
    if s == [] then [x]
    else if Less(s[0], x) then
      var rest := Insert(x, s[1..]);
      assert multiset(s) == multiset{s[0]} + multiset(s[1..]) by {
        assert s == [s[0]] + s[1..];
      }
      assert forall y :: y in rest ==> AtMost(s[0], y) by {
        forall y | y in rest ensures AtMost(s[0], y) {
          if y == x {
            LessAsymmetric(s[0], x);
          } else {
            assert y in s[1..];
          }
        }
      }
      SortedCons(s[0], rest);
      [s[0]] + rest
    else
      assert forall y :: y in s ==> AtMost(x, y) by {
        forall y | y in s ensures AtMost(x, y) {
          LessIrreflexive(s[0]);
          AtMostTransitive(x, s[0], y);
        }
      }
      SortedCons(x, s);
      [x] + s
  }

  /** Python's `sorted` on a list of names. Insertion order is irrelevant to
      the result: see SortedUnique. */
  function SortNames(s: seq<string>): (r: seq<string>)
    ensures Sorted(r)
    ensures multiset(r) == multiset(s)
    ensures forall n :: n in r <==> n in s
  {
    if s == [] then []
    else
      assert s == [s[0]] + s[1..];
      Insert(s[0], SortNames(s[1..]))
  }

  /** Two sorted lists holding the same names are the same list: whatever
      order `os.listdir` reports, `sorted` of it is the same. */
  lemma {:induction false} SortedUnique(a: seq<string>, b: seq<string>)
    requires Sorted(a) && Sorted(b)
    requires multiset(a) == multiset(b)
    ensures a == b
  {
    if a == [] {
      assert |b| == |multiset(b)| == 0;
    } else {
      SameFirst(a, b);
      SameRest(a, b);
      SortedUnique(a[1..], b[1..]);
      assert a == [a[0]] + a[1..] && b == [b[0]] + b[1..];
    }
  }

  lemma SameFirst(a: seq<string>, b: seq<string>)
    requires Sorted(a) && Sorted(b)
    requires multiset(a) == multiset(b) && a != []
    ensures b != [] && a[0] == b[0]
  {
    assert a[0] in multiset(b);
    var k :| 0 <= k < |b| && b[k] == a[0];
    assert b[0] in multiset(a);
    var m :| 0 <= m < |a| && a[m] == b[0];
    LessIrreflexive(a[0]);
    LessIrreflexive(b[0]);
    assert AtMost(a[0], a[m]);
    assert AtMost(b[0], b[k]);
    if a[0] != b[0] {
      LessTotal(a[0], b[0]);
    }
  }

  lemma SameRest(a: seq<string>, b: seq<string>)
    requires a != [] && b != [] && a[0] == b[0]
    requires multiset(a) == multiset(b)
    ensures multiset(a[1..]) == multiset(b[1..])
  {
    assert a == [a[0]] + a[1..];
    assert b == [b[0]] + b[1..];
    assert multiset(a) == multiset{a[0]} + multiset(a[1..]);
    assert multiset(b) == multiset{a[0]} + multiset(b[1..]);
    forall x ensures multiset(a[1..])[x] == multiset(b[1..])[x] {
      assert multiset(a)[x] == multiset(b)[x];
    }
  }

  /** Python's `name.endswith('.pdf')`: case-sensitive, and true of the name ".pdf" itself. */
  function IsPdf(name: string): (r: bool)
    ensures r <==> exists k :: 0 <= k <= |name| && name == name[..k] + ".pdf"
  {
    if |name| < 4 then false
    else
      var k := |name| - 4;
      assert name == name[..k] + name[k..];
      name[k..] == ".pdf"
  }

  /** The names that pass the filter, in the order given. */
  function PdfNames(s: seq<string>): (r: seq<string>)
    ensures forall n :: n in r <==> n in s && IsPdf(n)
  {
    if s == [] then []
    else (if IsPdf(s[0]) then [s[0]] else []) + PdfNames(s[1..])
  }

  lemma {:induction false} PdfNamesAppend(s: seq<string>, x: string)
    ensures PdfNames(s + [x]) == PdfNames(s) + (if IsPdf(x) then [x] else [])
  {
    var tail := if IsPdf(x) then [x] else [];
    if s == [] {
      assert s + [x] == [x];
      assert PdfNames([x]) == tail + PdfNames([]);
    } else {
      var head := if IsPdf(s[0]) then [s[0]] else [];
      assert (s + [x])[0] == s[0];
      assert (s + [x])[1..] == s[1..] + [x];
      calc {
        PdfNames(s + [x]);
        head + PdfNames(s[1..] + [x]);
        { PdfNamesAppend(s[1..], x); }
        head + (PdfNames(s[1..]) + tail);
        (head + PdfNames(s[1..])) + tail;
      }
    }
  }

  /** The filter keeps every occurrence of a PDF name and no other name. */
  lemma {:induction false} PdfNamesCount(s: seq<string>, x: string)
    ensures multiset(PdfNames(s))[x] == if IsPdf(x) then multiset(s)[x] else 0
  {
    if s != [] {
      assert s == [s[0]] + s[1..];
      PdfNamesCount(s[1..], x);
    }
  }

  /** Filtering keeps the relative order, so a sorted list stays sorted. */
  lemma {:induction false} PdfNamesSorted(s: seq<string>)
    requires Sorted(s)
    ensures Sorted(PdfNames(s))
  {
    if s != [] {
      PdfNamesSorted(s[1..]);
      var rest := PdfNames(s[1..]);
      if IsPdf(s[0]) {
        forall y | y in rest ensures AtMost(s[0], y) {
          assert y in s[1..];
        }
      }
    }
  }

  /** Sorting then filtering yields the listing's PDF names, sorted. */
  lemma SortThenFilter(s: seq<string>)
    ensures Sorted(PdfNames(SortNames(s)))
    ensures multiset(PdfNames(SortNames(s))) == multiset(PdfNames(s))
  {
    PdfNamesSorted(SortNames(s));
    forall x ensures multiset(PdfNames(SortNames(s)))[x] == multiset(PdfNames(s))[x] {
      PdfNamesCount(SortNames(s), x);
      PdfNamesCount(s, x);
    }
  }

  /** Sorting then filtering (the order `get_pdf_hash` uses) gives the PDF names
      of the directory in sorted order, whatever the listing order, and is
      decided by the PDF names alone. */
  lemma SortedPdfNamesCanonical(a: seq<string>, b: seq<string>)
    requires multiset(PdfNames(a)) == multiset(PdfNames(b))
    ensures PdfNames(SortNames(a)) == PdfNames(SortNames(b))
  {
    SortThenFilter(a);
    SortThenFilter(b);
    SortedUnique(PdfNames(SortNames(a)), PdfNames(SortNames(b)));
  }

  /** The filter leaves nothing exactly when no listed name is a PDF name. */
  lemma {:induction false} NoPdfNames(s: seq<string>)
    ensures PdfNames(s) == [] <==> forall n :: n in s ==> !IsPdf(n)
  {
    if s != [] {
      assert s[0] in s;
      NoPdfNames(s[1..]);
    }
  }
}
