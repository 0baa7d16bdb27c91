/** Values shared by the three matchers: optional values, distances that may be
    Python's float('inf') sentinel, and the pathlib rules for file names. */
module Common {

  datatype Option<+T> = None | Some(value: T)

  /** A face distance or a threshold difference that may be infinite: the
      matchers start "second best" at float('inf') and subtract finite values
      from it, which leaves it infinite. */
  datatype Dist = Fin(v: real) | Inf {

    /** `self < x` for a finite x (inf < x is False). */
    predicate Below(x: real) {
      Fin? && v < x
    }

    /** `self >= x` for a finite x (inf >= x is True). */
    predicate AtLeast(x: real) {
      Inf? || v >= x
    }

    /** `self < other` (inf < inf is False, x < inf is True). */
    predicate Less(other: Dist) {
      Fin? && (other.Inf? || v < other.v)
    }
  }

  /** `d - x` for a finite x. */
  function Minus(d: Dist, x: real): (r: Dist)
    ensures r.Inf? <==> d.Inf?
    ensures r.Fin? ==> r.v + x == d.v
  {
    match d
    case Inf => Inf
    case Fin(y) => Fin(y - x)
  }

  function Min(a: real, b: real): real {
    if b < a then b else a
  }

  function Max(a: real, b: real): real {
    if b > a then b else a
  }

  function MaxInt(a: int, b: int): int {
    if b > a then b else a
  }

  ghost predicate NoDup<T>(s: seq<T>) {
    forall i, j :: 0 <= i < j < |s| ==> s[i] != s[j]
  }

  /** Index of the first occurrence of `x` in `s` (Python's list.index). */
  function FirstIndex<T(==)>(s: seq<T>, x: T): (k: nat)
    requires x in s
    ensures k < |s| && s[k] == x
    ensures forall j :: 0 <= j < k ==> s[j] != x
  {
    if s[0] == x then 0 else 1 + FirstIndex(s[1..], x)
  }

  /** F(0), ..., F(k - 1). */
  function Tabulate<T>(k: nat, F: nat -> T): (r: seq<T>)
    ensures |r| == k
  {
    if k == 0 then [] else Tabulate(k - 1, F) + [F(k - 1)]
  }

  lemma {:induction false} TabulateAt<T>(k: nat, F: nat -> T, f: nat)
    requires f < k
    ensures Tabulate(k, F)[f] == F(f)
  {
    if f < k - 1 {
      TabulateAt(k - 1, F, f);
    }
  }

  /** The union of Part(j) over every j < n. */
  function UnionUpTo<T>(n: nat, Part: nat -> set<T>): set<T> {
    if n == 0 then {} else UnionUpTo(n - 1, Part) + Part(n - 1)
  }

  lemma {:induction false} UnionUpToIff<T>(n: nat, Part: nat -> set<T>, x: T)
    ensures x in UnionUpTo(n, Part) <==> exists j :: 0 <= j < n && x in Part(j)
  {
    if n > 0 {
      UnionUpToIff(n - 1, Part, x);
      if x in UnionUpTo(n, Part) && x !in UnionUpTo(n - 1, Part) {
        assert x in Part(n - 1);
      }
    }
  }

  /** Part(0) + ... + Part(n - 1). */
  function ConcatUpTo<T>(n: nat, Part: nat -> seq<T>): seq<T> {
    if n == 0 then [] else ConcatUpTo(n - 1, Part) + Part(n - 1)
  }

  lemma {:induction false} ConcatUpToFrom<T>(n: nat, Part: nat -> seq<T>, x: T)
    requires x in ConcatUpTo(n, Part)
    ensures exists j :: 0 <= j < n && x in Part(j)
  {
    assert ConcatUpTo(n, Part) == ConcatUpTo(n - 1, Part) + Part(n - 1);
    if x in ConcatUpTo(n - 1, Part) {
      ConcatUpToFrom(n - 1, Part, x);
    }
  }

  /** The growth of a set of copied pairs by a batch: the new pairs of
      the batch add up. */
  lemma UnionGrowth<T>(files0: set<T>, done: set<T>, step: set<T>)
    ensures |(done + step) - files0| == |done - files0| + |step - (files0 + done)|
  {
    assert (done + step) - files0 == (done - files0) + (step - (files0 + done));
  }

  /** Adding x (when add holds) to the pairs done: the pairs new on disk grow
      by one exactly when x is added and neither on disk nor done before. */
  lemma AddPair<T>(files0: set<T>, done: set<T>, x: T, add: bool)
    ensures var step := if add then {x} else {};
      |(done + step) - files0| == |done - files0| + (if add && x !in files0 + done then 1 else 0)
  {
    if add && x !in files0 + done {
      assert (done + {x}) - files0 == (done - files0) + {x};
    } else if add {
      assert (done + {x}) - files0 == done - files0;
    }
  }

  /** Key(j) for each j < n such that Keep(j), in order of j. */
  function Select<T>(n: nat, Key: nat -> T, Keep: nat -> bool): seq<T> {
    if n == 0 then [] else Select(n - 1, Key, Keep) + (if Keep(n - 1) then [Key(n - 1)] else [])
  }

  lemma {:induction false} SelectIff<T>(n: nat, Key: nat -> T, Keep: nat -> bool, x: T)
    ensures x in Select(n, Key, Keep) <==> exists j :: 0 <= j < n && Keep(j) && Key(j) == x
  {
    if n > 0 {
      var tail := if Keep(n - 1) then [Key(n - 1)] else [];
      assert Select(n, Key, Keep) == Select(n - 1, Key, Keep) + tail;
      SelectIff(n - 1, Key, Keep, x);
      if x in Select(n, Key, Keep) {
        if x !in Select(n - 1, Key, Keep) {
          assert x in tail;
          assert Keep(n - 1) && Key(n - 1) == x;
        }
      } else {
        forall j | 0 <= j < n && Keep(j)
          ensures Key(j) != x
        {
          if j == n - 1 {
            assert x !in tail;
          }
        }
      }
    }
  }

  /** `n` copies of `x`. */
  function Repeat<T>(x: T, n: nat): (r: seq<T>)
    ensures |r| == n
    ensures forall i :: 0 <= i < n ==> r[i] == x
  {
    if n == 0 then [] else Repeat(x, n - 1) + [x]
  }

  // ---------------------------------------------------------------------
  // pathlib file names

  /** str.rfind: the last index of `c` in `s`, or -1. */
  function RFind(s: string, c: char): (r: int)
    ensures -1 <= r < |s|
    ensures r >= 0 ==> s[r] == c && forall j :: r < j < |s| ==> s[j] != c
    ensures r == -1 ==> forall j :: 0 <= j < |s| ==> s[j] != c
  {
    if |s| == 0 then -1
    else if s[|s| - 1] == c then |s| - 1
    else RFind(s[..|s| - 1], c)
  }

  /** PurePath.suffix is non-empty only when the last dot is neither the first
      nor the last character of the name. */
  predicate HasSuffix(name: string) {
    0 < RFind(name, '.') < |name| - 1
  }

  /** PurePath.suffix: from the last dot on, or "". */
  function Suffix(name: string): string {
    if HasSuffix(name) then name[RFind(name, '.')..] else ""
  }

  /** PurePath.stem: the name without its suffix. */
  function Stem(name: string): string {
    if HasSuffix(name) then name[..RFind(name, '.')] else name
  }

  lemma StemSuffixSplit(name: string)
    ensures Stem(name) + Suffix(name) == name
  {
  }

  function LowerChar(c: char): char {
    if 'A' <= c <= 'Z' then (c as int + 32) as char else c
  }

  /** str.lower() on the ASCII letters. */
  function Lower(s: string): (r: string)
    ensures |r| == |s|
    ensures forall i :: 0 <= i < |s| ==> r[i] == LowerChar(s[i])
  {
    seq(|s|, i requires 0 <= i < |s| => LowerChar(s[i]))
  }

  /** `f.suffix.lower() in extensions`, the image filter of every matcher. */
  predicate HasImageSuffix(name: string, extensions: seq<string>) {
    Lower(Suffix(name)) in extensions
  }

  /** The names of a listing that pass the image filter, in listing order. */
  function ImageFiles(names: seq<string>, extensions: seq<string>): (r: seq<string>)
    ensures |r| <= |names|
    ensures forall x :: x in r <==> x in names && HasImageSuffix(x, extensions)
  {
    if |names| == 0 then []
    else ImageFiles(names[..|names| - 1], extensions)
         + (if HasImageSuffix(names[|names| - 1], extensions) then [names[|names| - 1]] else [])
  }

  /** The filter distributes over concatenation, so it keeps the listing's
      order: the image files of a + b are those of a followed by those of b. */
  lemma {:induction false} ImageFilesConcat(a: seq<string>, b: seq<string>, extensions: seq<string>)
    ensures ImageFiles(a + b, extensions) == ImageFiles(a, extensions) + ImageFiles(b, extensions)
  {
    if |b| > 0 {
      var init := b[..|b| - 1];
      ImageFilesConcat(a, init, extensions);
      assert (a + b)[..|a + b| - 1] == a + init;
      assert (a + b)[|a + b| - 1] == b[|b| - 1];
    } else {
      assert a + b == a;
    }
  }

  // ---------------------------------------------------------------------
  // Directory listings

  /** One entry of a listing: its name and whether it is a directory; a
      directory carries the names it holds. */
  datatype Entry = Entry(name: string, isDir: bool, listing: seq<string>)

  /** An event folder as the matchers see it: whether selfies/ and photos/
      exist, the entries of selfies/ (one folder per guest) and the names in
      photos/. */
  datatype Folders = Folders(selfiesExist: bool, photosExist: bool, selfies: seq<Entry>, photos: seq<string>)

  /** The names of the sub-directories of a listing, in listing order. */
  function GuestDirs(entries: seq<Entry>): (r: seq<string>)
    ensures |r| <= |entries|
    ensures forall x :: x in r <==> exists i :: 0 <= i < |entries| && entries[i].isDir && entries[i].name == x
  {
    if |entries| == 0 then []
    else
      var last := entries[|entries| - 1];
      GuestDirs(entries[..|entries| - 1]) + (if last.isDir then [last.name] else [])
  }

  /** The directories of entries a + b are those of a followed by those of
      b, so the guest folders come in listing order. */
  lemma {:induction false} GuestDirsConcat(a: seq<Entry>, b: seq<Entry>)
    ensures GuestDirs(a + b) == GuestDirs(a) + GuestDirs(b)
  {
    if |b| > 0 {
      var init := b[..|b| - 1];
      GuestDirsConcat(a, init);
      assert (a + b)[..|a + b| - 1] == a + init;
      assert (a + b)[|a + b| - 1] == b[|b| - 1];
    } else {
      assert a + b == a;
    }
  }

  /** The selfie count of validate_directories: the image files directly
      inside each guest folder, summed over the folders. */
  function SelfieCount(entries: seq<Entry>, extensions: seq<string>): nat {
    if |entries| == 0 then 0
    else
      var last := entries[|entries| - 1];
      SelfieCount(entries[..|entries| - 1], extensions)
      + (if last.isDir then |ImageFiles(last.listing, extensions)| else 0)
  }

  /** No selfie is counted exactly when no guest folder holds a file that
      passes the image filter. */
  lemma {:induction false} NoSelfiesIffNoImages(entries: seq<Entry>, extensions: seq<string>)
    ensures SelfieCount(entries, extensions) == 0 <==>
      forall i, x :: 0 <= i < |entries| && entries[i].isDir && x in entries[i].listing ==>
        !HasImageSuffix(x, extensions)
  {
    if |entries| > 0 {
      var init, last := entries[..|entries| - 1], entries[|entries| - 1];
      NoSelfiesIffNoImages(init, extensions);
      assert forall i :: 0 <= i < |init| ==> init[i] == entries[i];
      if last.isDir && |ImageFiles(last.listing, extensions)| > 0 {
        var x := ImageFiles(last.listing, extensions)[0];
        assert x in last.listing && HasImageSuffix(x, extensions);
      }
      if last.isDir && |ImageFiles(last.listing, extensions)| == 0 {
        forall x | x in last.listing
          ensures !HasImageSuffix(x, extensions)
        {
          assert HasImageSuffix(x, extensions) ==> x in ImageFiles(last.listing, extensions);
        }
      }
    }
  }

  /** The counting loop of validate_directories over the selfies folder. */
  method CountSelfies(entries: seq<Entry>, extensions: seq<string>) returns (guests: seq<string>, n: nat)
    ensures guests == GuestDirs(entries)
    ensures n == SelfieCount(entries, extensions)
  {
    guests, n := [], 0;
    for k := 0 to |entries|
      invariant guests == GuestDirs(entries[..k])
      invariant n == SelfieCount(entries[..k], extensions)
    {
      assert entries[..k + 1][..k] == entries[..k];
      var entry := entries[k];
      if entry.isDir {
        guests := guests + [entry.name];
        n := n + |ImageFiles(entry.listing, extensions)|;
      }
    }
    assert entries[..|entries|] == entries;
  }

  // ---------------------------------------------------------------------
  // f"{i}" for a natural number

  function DigitChar(d: nat): char
    requires d < 10
  {
    (48 + d) as char
  }

  /** Decimal rendering without leading zeros. */
  function Decimal(n: nat): (s: string)
    ensures |s| >= 1
    ensures n >= 10 ==> |s| >= 2
    decreases n
  {
    if n < 10 then [DigitChar(n)] else Decimal(n / 10) + [DigitChar(n % 10)]
  }

  /** Different numbers render differently. */
  lemma {:induction false} DecimalInjective(a: nat, b: nat)
    requires Decimal(a) == Decimal(b)
    ensures a == b
    decreases a
  {
    if a >= 10 && b >= 10 {
      var sa, sb := Decimal(a), Decimal(b);
      assert sa[|sa| - 1] == sb[|sb| - 1];
      assert a % 10 == b % 10;
      assert Decimal(a / 10) == sa[..|sa| - 1] == sb[..|sb| - 1] == Decimal(b / 10);
      DecimalInjective(a / 10, b / 10);
    }
  }
}
