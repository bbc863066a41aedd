/**
 * File names and paths as the scripts handle them: the image-extension filter
 * (with and without lower-casing), `os.path.basename`, `os.path.splitext`,
 * `os.path.join`, and `sorted()` over names compared code point by code point.
 */
module Names {
  import opened Sequences

  /** `str.lower()` on one character, for the ASCII letters. */
  function LowerChar(c: char): (d: char)
    ensures 'A' <= c <= 'Z' ==> 'a' <= d <= 'z' && d as int - c as int == 'a' as int - 'A' as int
    ensures !('A' <= c <= 'Z') ==> d == c
  {
    if 'A' <= c <= 'Z' then (c as int - 'A' as int + 'a' as int) as char else c
  }

  function Lower(s: string): (t: string)
    ensures |t| == |s|
  {
    seq(|s|, i requires 0 <= i < |s| => LowerChar(s[i]))
  }

  /** `str.endswith(suffix)`. */
  predicate EndsWith(s: string, suffix: string)
  {
    |suffix| <= |s| && s[|s| - |suffix|..] == suffix
  }

  /** `name.endswith(('.png', '.jpg', '.jpeg'))`: the tuple's order does not matter. */
  predicate HasImageSuffix(name: string)
  {
    EndsWith(name, ".png") || EndsWith(name, ".jpg") || EndsWith(name, ".jpeg")
  }

  /**
   * The image filter of the scripts: `name.lower().endswith(...)` when
   * `foldCase` holds, `name.endswith(...)` otherwise.
   */
  predicate IsImageName(name: string, foldCase: bool): (b: bool)
    ensures b ==> |name| >= 4
  {
    if foldCase then HasImageSuffix(Lower(name)) else HasImageSuffix(name)
  }

  /** `[f for f in names if <image filter>]`. */
  function KeepImages(names: seq<string>, foldCase: bool): (kept: seq<string>)
    ensures |kept| <= |names|
  {
    if |names| == 0 then []
    else (if IsImageName(names[0], foldCase) then [names[0]] else []) + KeepImages(names[1..], foldCase)
  }

  /** The filter keeps exactly the image names, each as often as it occurs, in their order. */
  lemma KeepImagesSpec(names: seq<string>, foldCase: bool)
    ensures forall n :: multiset(KeepImages(names, foldCase))[n] == if IsImageName(n, foldCase) then multiset(names)[n] else 0
    ensures forall n :: n in KeepImages(names, foldCase) <==> n in names && IsImageName(n, foldCase)
    ensures IsSubsequence(KeepImages(names, foldCase), names)
  {
    KeepImagesCount(names, foldCase);
    KeepImagesSubsequence(names, foldCase);
    var kept := KeepImages(names, foldCase);
    forall n ensures n in kept <==> n in names && IsImageName(n, foldCase) {
      assert n in kept <==> multiset(kept)[n] > 0;
      assert n in names <==> multiset(names)[n] > 0;
    }
  }

  /** Each image name is kept as often as it occurs, and no other name is kept. */
  lemma {:induction false} KeepImagesCount(names: seq<string>, foldCase: bool)
    ensures forall n :: multiset(KeepImages(names, foldCase))[n] == if IsImageName(n, foldCase) then multiset(names)[n] else 0
  {
    if |names| > 0 {
      KeepImagesCount(names[1..], foldCase);
      assert names == [names[0]] + names[1..];
      assert multiset(names) == multiset{names[0]} + multiset(names[1..]);
      var keep := if IsImageName(names[0], foldCase) then [names[0]] else [];
      assert KeepImages(names, foldCase) == keep + KeepImages(names[1..], foldCase);
      assert multiset(KeepImages(names, foldCase)) == multiset(keep) + multiset(KeepImages(names[1..], foldCase));
    }
  }

  /** The filter keeps the listing's order. */
  lemma {:induction false} KeepImagesSubsequence(names: seq<string>, foldCase: bool)
    ensures IsSubsequence(KeepImages(names, foldCase), names)
  {
    if |names| > 0 {
      KeepImagesSubsequence(names[1..], foldCase);
      var kept, rest := KeepImages(names, foldCase), KeepImages(names[1..], foldCase);
      if IsImageName(names[0], foldCase) {
        assert kept == [names[0]] + rest;
        assert kept[0] == names[0] && kept[1..] == rest;
      } else {
        assert kept == rest;
      }
    }
  }

  lemma LowerOfSuffix(s: string, suffix: string)
    requires EndsWith(s, suffix)
    requires forall i :: 0 <= i < |suffix| ==> LowerChar(suffix[i]) == suffix[i]
    ensures EndsWith(Lower(s), suffix)
  {
    var k := |s| - |suffix|;
    forall i | 0 <= i < |suffix| ensures Lower(s)[k..][i] == suffix[i] {
      assert s[k..][i] == suffix[i];
    }
  }

  /**
   * Every name the case-sensitive filter keeps is kept by the lower-casing
   * filter too; the converse fails for upper-case extensions.
   */
  lemma CaseFoldingAcceptsMore(name: string)
    ensures IsImageName(name, false) ==> IsImageName(name, true)
  {
    if EndsWith(name, ".png") { LowerOfSuffix(name, ".png"); }
    if EndsWith(name, ".jpg") { LowerOfSuffix(name, ".jpg"); }
    if EndsWith(name, ".jpeg") { LowerOfSuffix(name, ".jpeg"); }
  }

  /** An upper-case extension passes only the lower-casing filter. */
  lemma UpperCaseExtension()
    ensures IsImageName("F.JPG", true) && !IsImageName("F.JPG", false)
  {
    var s := "F.JPG";
    var t := Lower(s);
    assert t[1] == '.' && t[2] == 'j' && t[3] == 'p' && t[4] == 'g';
    assert t[1..] == ".jpg";
    assert HasImageSuffix(t);
    assert s[1..][1] == 'J';
    assert !EndsWith(s, ".png") && !EndsWith(s, ".jpg");
    assert s[0] == 'F';
    assert !EndsWith(s, ".jpeg");
  }

  /** `s.rfind(c)`: the index of the last `c` in `s`, or -1. */
  function LastIndex(s: string, c: char): (k: int)
    ensures -1 <= k < |s|
    ensures k >= 0 ==> s[k] == c
    ensures forall i :: k < i < |s| ==> s[i] != c
  {
    if |s| == 0 then -1
    else if s[|s| - 1] == c then |s| - 1
    else LastIndex(s[..|s| - 1], c)
  }

  /** `os.path.basename(path)`: what follows the last '/'. */
  function Basename(path: string): (name: string)
    ensures '/' !in name
    ensures EndsWith(path, name)
    ensures |name| == |path| || path[|path| - |name| - 1] == '/'
  {
    var k := LastIndex(path, '/') + 1;
    assert path[|path| - |path[k..]|..] == path[k..];
    path[k..]
  }

  /** The frame path `f"{dir}/{name}"` leads back to `name`. */
  lemma BasenameOfFramePath(dir: string, name: string)
    requires '/' !in name
    ensures Basename(dir + "/" + name) == name
  {
    var p := dir + "/" + name;
    var k := LastIndex(p, '/');
    assert p[|dir|] == '/';
    assert k >= |dir|;
    assert p[k + 1..] == name;
  }

  predicate AllDots(s: string)
  {
    forall i :: 0 <= i < |s| ==> s[i] == '.'
  }

  /**
   * `os.path.splitext(p)[0]`: `p` without the part from its last '.' on, when
   * that '.' lies in the last path component and something other than dots
   * precedes it there; `p` itself otherwise (".hidden" has no extension).
   */
  function Stem(p: string): (stem: string)
    ensures stem <= p
    ensures stem != p ==> p[|stem|] == '.' && '.' !in p[|stem| + 1..] && '/' !in p[|stem|..]
  {
    var sep := LastIndex(p, '/');
    var dot := LastIndex(p, '.');
    if dot > sep && !AllDots(p[sep + 1..dot]) then
      AbsentFrom(p, '.', dot + 1);
      AbsentFrom(p, '/', dot);
      p[..dot]
    else p
  }

  /** A character that occurs nowhere from index `from` on is not in that suffix. */
  lemma AbsentFrom(s: string, c: char, from: int)
    requires 0 <= from <= |s|
    requires forall i :: from <= i < |s| ==> s[i] != c
    ensures c !in s[from..]
  {
  }

  /** Splitting off an extension of the form ".xyz" gives back the name before it. */
  lemma {:induction false} StemOfExtension(name: string, ext: string)
    requires '/' !in name + ext
    requires |ext| > 0 && ext[0] == '.' && '.' !in ext[1..]
    requires !AllDots(name)
    ensures Stem(name + ext) == name
  {
    var p := name + ext;
    assert p[|name|] == '.';
    var dot := LastIndex(p, '.');
    assert dot == |name|;
    var sep := LastIndex(p, '/');
    assert sep == -1;
    assert p[sep + 1..dot] == name;
  }

  /** A name without any '.' has no extension. */
  lemma StemWithoutDot(name: string)
    requires '.' !in name
    ensures Stem(name) == name
  {
  }

  /** `os.path.join(dir, name)` for two components. */
  function Join(dir: string, name: string): (path: string)
    ensures EndsWith(path, name)
    ensures |name| > 0 && name[0] == '/' ==> path == name
    ensures !(|name| > 0 && name[0] == '/') ==> path == dir + name || path == dir + "/" + name
  {
    if |name| > 0 && name[0] == '/' then name
    else if |dir| == 0 || dir[|dir| - 1] == '/' then dir + name
    else dir + "/" + name
  }

  /** Python's `<=` on strings: lexicographic by code point. */
  predicate LexLe(a: string, b: string)
    decreases |a|
  {
    |a| == 0 || (|b| > 0 && (a[0] < b[0] || (a[0] == b[0] && LexLe(a[1..], b[1..]))))
  }

  lemma {:induction false} LexLeReflexive(a: string)
    ensures LexLe(a, a)
    decreases |a|
  {
    if |a| > 0 {
      LexLeReflexive(a[1..]);
    }
  }

  lemma {:induction false} LexLeTotal(a: string, b: string)
    ensures LexLe(a, b) || LexLe(b, a)
    decreases |a|
  {
    if |a| > 0 && |b| > 0 && a[0] == b[0] {
      LexLeTotal(a[1..], b[1..]);
    }
  }

  lemma {:induction false} LexLeTransitive(a: string, b: string, c: string)
    requires LexLe(a, b) && LexLe(b, c)
    ensures LexLe(a, c)
    decreases |a|
  {
    if |a| > 0 && a[0] == b[0] && b[0] == c[0] {
      LexLeTransitive(a[1..], b[1..], c[1..]);
    }
  }

  lemma {:induction false} LexLeAntisymmetric(a: string, b: string)
    requires LexLe(a, b) && LexLe(b, a)
    ensures a == b
    decreases |a|
  {
    if |a| > 0 {
      LexLeAntisymmetric(a[1..], b[1..]);
      assert a == [a[0]] + a[1..] && b == [b[0]] + b[1..];
    }
  }

  ghost predicate Sorted(s: seq<string>)
  {
    forall i, j :: 0 <= i < j < |s| ==> LexLe(s[i], s[j])
  }

  function Insert(x: string, s: seq<string>): (r: seq<string>)
    ensures multiset(r) == multiset(s) + multiset{x}
  {
    if |s| == 0 || LexLe(x, s[0]) then [x] + s
    else
      assert s == [s[0]] + s[1..];
      [s[0]] + Insert(x, s[1..])
  }

  /** `sorted(names)`, written as an insertion sort. */
  function Sort(names: seq<string>): (r: seq<string>)
    ensures multiset(r) == multiset(names)
  {
    if |names| == 0 then []
    else
      assert names == [names[0]] + names[1..];
      Insert(names[0], Sort(names[1..]))
  }

  lemma {:induction false} InsertSorted(x: string, s: seq<string>)
    requires Sorted(s)
    ensures Sorted(Insert(x, s))
  {
    var r := Insert(x, s);
    if |s| == 0 {
    } else if LexLe(x, s[0]) {
      forall i, j | 0 <= i < j < |r| ensures LexLe(r[i], r[j]) {
        if i == 0 && j > 1 {
          LexLeTransitive(x, s[0], s[j - 1]);
        }
      }
    } else {
      var rest := Insert(x, s[1..]);
      InsertSorted(x, s[1..]);
      LexLeTotal(x, s[0]);
      forall k | 0 <= k < |s[1..]| ensures LexLe(s[0], s[1..][k]) {
        assert s[1..][k] == s[k + 1];
      }
      InsertLowerBound(x, s[1..], s[0]);
      forall i, j | 0 <= i < j < |r| ensures LexLe(r[i], r[j]) {
        if i == 0 {
          assert r[j] == rest[j - 1];
        } else {
          assert r[i] == rest[i - 1] && r[j] == rest[j - 1];
        }
      }
    }
  }

  /** Inserting a name no smaller than `b` into names no smaller than `b` keeps them all no smaller than `b`. */
  lemma InsertLowerBound(x: string, s: seq<string>, b: string)
    requires LexLe(b, x)
    requires forall k :: 0 <= k < |s| ==> LexLe(b, s[k])
    ensures forall k :: 0 <= k < |Insert(x, s)| ==> LexLe(b, Insert(x, s)[k])
  {
    var r := Insert(x, s);
    forall k | 0 <= k < |r| ensures LexLe(b, r[k]) {
      assert r[k] in multiset(r);
      if r[k] != x {
        assert r[k] in multiset(s);
        var m :| 0 <= m < |s| && s[m] == r[k];
      }
    }
  }

  /** The model of `sorted()` returns its input in ascending order. */
  lemma {:induction false} SortSorted(names: seq<string>)
    ensures Sorted(Sort(names))
  {
    if |names| > 0 {
      SortSorted(names[1..]);
      InsertSorted(names[0], Sort(names[1..]));
    }
  }

  lemma SortedHeadIsLeast(a: seq<string>, x: string)
    requires Sorted(a) && x in a
    ensures LexLe(a[0], x)
  {
    var i :| 0 <= i < |a| && a[i] == x;
    if i == 0 {
      LexLeReflexive(x);
    }
  }

  lemma SortedTail(a: seq<string>)
    requires Sorted(a) && |a| > 0
    ensures Sorted(a[1..])
  {
    forall i, j | 0 <= i < j < |a[1..]| ensures LexLe(a[1..][i], a[1..][j]) {
      assert a[1..][i] == a[i + 1] && a[1..][j] == a[j + 1];
    }
  }

  /**
   * Only one ordering of a collection of strings is sorted, so the insertion
   * sort returns exactly what `sorted()` returns.
   */
  lemma {:induction false} SortedPermutationUnique(a: seq<string>, b: seq<string>)
    requires Sorted(a) && Sorted(b)
    requires multiset(a) == multiset(b)
    ensures a == b
    decreases |a|
  {
    assert |a| == |multiset(a)| == |multiset(b)| == |b|;
    if |a| > 0 {
      assert a[0] in multiset(b) && b[0] in multiset(a);
      SortedHeadIsLeast(b, a[0]);
      SortedHeadIsLeast(a, b[0]);
      LexLeAntisymmetric(a[0], b[0]);
      assert a == [a[0]] + a[1..] && b == [b[0]] + b[1..];
      assert multiset(a[1..]) == multiset(a) - multiset{a[0]};
      assert multiset(b[1..]) == multiset(b) - multiset{b[0]};
      SortedTail(a);
      SortedTail(b);
      SortedPermutationUnique(a[1..], b[1..]);
    }
  }

  /** The image list of the selection tools: the listing's image names, sorted. */
  function ImageFiles(listing: seq<string>, foldCase: bool): (files: seq<string>)
    ensures forall n :: n in files ==> IsImageName(n, foldCase)
  {
    var kept := KeepImages(listing, foldCase);
    KeepImagesSpec(listing, foldCase);
    var files := Sort(kept);
    assert forall n :: n in files ==> n in multiset(kept);
    files
  }

  /**
   * The image list is sorted and holds each image name of the listing as often
   * as the listing does, and nothing else; with a duplicate-free listing it is
   * the only sorted sequence that does.
   */
  lemma ImageFilesSpec(listing: seq<string>, foldCase: bool)
    ensures var files := ImageFiles(listing, foldCase);
      && Sorted(files)
      && (forall n :: multiset(files)[n] == if IsImageName(n, foldCase) then multiset(listing)[n] else 0)
      && (forall n :: n in files <==> n in listing && IsImageName(n, foldCase))
    ensures forall other :: Sorted(other) && multiset(other) == multiset(KeepImages(listing, foldCase)) ==>
      other == ImageFiles(listing, foldCase)
  {
    var kept := KeepImages(listing, foldCase);
    var files := Sort(kept);
    SortSorted(kept);
    KeepImagesSpec(listing, foldCase);
    forall n ensures n in files <==> n in kept {
      assert n in files <==> multiset(files)[n] > 0;
      assert n in kept <==> multiset(kept)[n] > 0;
    }
    forall other | Sorted(other) && multiset(other) == multiset(kept) ensures other == files {
      SortedPermutationUnique(other, files);
    }
  }
}
