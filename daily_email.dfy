/** Which images the daily e-mail attaches: the `.jpg` files of the image
    directory, sorted by modification time, last `daily_email_image_count` of
    them (6 unless configured), and the mail is sent only if that is non-empty. */
module DailyEmail {
  import opened Options
  import opened Images

  /** A directory entry as `os.listdir` lists it, with its `os.path.getmtime`. */
  datatype ImageFile = ImageFile(name: string, mtime: int)

  const DEFAULT_IMAGE_COUNT := 6

  /** `name.endswith(".jpg")`. */
  predicate IsJpg(name: string)
  {
    |name| >= 4 && name[|name| - 4..] == ".jpg"
  }

  /** The list comprehension `[... for f in files if f.endswith(".jpg")]`. */
  function JpgFiles(files: seq<ImageFile>): (jpgs: seq<ImageFile>)
    ensures |jpgs| <= |files|
    ensures forall i :: 0 <= i < |jpgs| ==> IsJpg(jpgs[i].name)
    decreases |files|
  {
    if files == [] then []
    else (if IsJpg(files[0].name) then [files[0]] else []) + JpgFiles(files[1..])
  }

  predicate SortedByMtime(s: seq<ImageFile>)
  {
    forall i, j :: 0 <= i < j < |s| ==> s[i].mtime <= s[j].mtime
  }

  /** The files of `s` whose modification time is `m`, in their order in `s`. */
  function WithMtime(s: seq<ImageFile>, m: int): seq<ImageFile>
    decreases |s|
  {
    if s == [] then []
    else (if s[0].mtime == m then [s[0]] else []) + WithMtime(s[1..], m)
  }

  /** Puts `x` before the first file that is not older than it. */
  function InsertByMtime(x: ImageFile, s: seq<ImageFile>): (r: seq<ImageFile>)
    ensures |r| == |s| + 1
    decreases |s|
  {
    if s == [] || x.mtime <= s[0].mtime then [x] + s
    else [s[0]] + InsertByMtime(x, s[1..])
  }

  /** `sorted(..., key=os.path.getmtime)`: a stable sort on modification time. */
  function SortByMtime(s: seq<ImageFile>): (r: seq<ImageFile>)
    ensures |r| == |s|
    decreases |s|
  {
    if s == [] then [] else InsertByMtime(s[0], SortByMtime(s[1..]))
  }

  /** Python's `s[start:]`, negative starts counting from the end: always a
      suffix of `s`, the whole of it for a start at or below `-|s|`, nothing for
      a start at or beyond `|s|`. */
  function SliceFrom<T>(s: seq<T>, start: int): (r: seq<T>)
    ensures |r| <= |s| && r == s[|s| - |r|..]
    ensures start <= -|s| ==> r == s
    ensures start >= |s| ==> r == []
  {
    var lo := if start < 0 then (if |s| + start < 0 then 0 else |s| + start)
              else (if start > |s| then |s| else start);
    s[lo..]
  }

  /** `config.get("daily_email_image_count", 6)`. */
  function ImageCount(configured: Option<int>): int
  {
    configured.GetOr(DEFAULT_IMAGE_COUNT)
  }

  /** The images `send_daily_email` attaches. */
  function SelectImages(files: seq<ImageFile>, configured: Option<int>): seq<ImageFile>
  {
    SliceFrom(SortByMtime(JpgFiles(files)), -ImageCount(configured))
  }

  /** `if images:` — whether the daily e-mail is sent at all. */
  predicate SendsEmail(files: seq<ImageFile>, configured: Option<int>)
  {
    SelectImages(files, configured) != []
  }

  // ---------------------------------------------------------------------------

  /** The filter keeps exactly the `.jpg` files, in their listed order. */
  lemma {:induction false} JpgFilesAreTheJpgs(files: seq<ImageFile>)
    ensures forall x :: x in JpgFiles(files) <==> x in files && IsJpg(x.name)
    ensures multiset(JpgFiles(files)) <= multiset(files)
    decreases |files|
  {
    if files != [] {
      JpgFilesAreTheJpgs(files[1..]);
      assert files == [files[0]] + files[1..];
    }
  }

  /** The filter keeps the listed order: filtering a concatenation is
      concatenating the filtered parts. */
  lemma {:induction false} JpgFilesAppend(a: seq<ImageFile>, b: seq<ImageFile>)
    ensures JpgFiles(a + b) == JpgFiles(a) + JpgFiles(b)
    decreases |a|
  {
    if a != [] {
      assert (a + b)[0] == a[0] && (a + b)[1..] == a[1..] + b;
      JpgFilesAppend(a[1..], b);
    } else {
      assert a + b == b;
    }
  }

  lemma {:induction false} InsertPermutes(x: ImageFile, s: seq<ImageFile>)
    ensures multiset(InsertByMtime(x, s)) == multiset(s) + multiset{x}
    decreases |s|
  {
    if s != [] && x.mtime > s[0].mtime {
      InsertPermutes(x, s[1..]);
      assert s == [s[0]] + s[1..];
    }
  }

  lemma {:induction false} InsertSorted(x: ImageFile, s: seq<ImageFile>)
    requires SortedByMtime(s)
    ensures SortedByMtime(InsertByMtime(x, s))
    decreases |s|
  {
    if s != [] && x.mtime > s[0].mtime {
      var t := InsertByMtime(x, s[1..]);
      InsertSorted(x, s[1..]);
      InsertPermutes(x, s[1..]);
      forall k | 0 <= k < |t| ensures s[0].mtime <= t[k].mtime {
        assert t[k] in multiset(t);
        assert t[k] == x || t[k] in multiset(s[1..]);
      }
    }
  }

  /** Inserting `x` adds it to the files of its own time ahead of those already there. */
  lemma {:induction false} InsertStable(x: ImageFile, s: seq<ImageFile>, m: int)
    ensures WithMtime(InsertByMtime(x, s), m) == (if x.mtime == m then [x] else []) + WithMtime(s, m)
    decreases |s|
  {
    var mine := if x.mtime == m then [x] else [];
    if s == [] || x.mtime <= s[0].mtime {
      var u := [x] + s;
      assert u[0] == x && u[1..] == s;
      assert WithMtime(u, m) == mine + WithMtime(s, m);
    } else {
      var t := InsertByMtime(x, s[1..]);
      var u := [s[0]] + t;
      var first := if s[0].mtime == m then [s[0]] else [];
      assert u[0] == s[0] && u[1..] == t;
      assert WithMtime(u, m) == first + WithMtime(t, m);
      InsertStable(x, s[1..], m);
      assert WithMtime(t, m) == mine + WithMtime(s[1..], m);
      assert WithMtime(s, m) == first + WithMtime(s[1..], m);
      assert first == [] || mine == [];
    }
  }

  /** The sort is sorted, a permutation, and stable: files with the same
      modification time keep their listed order. */
  lemma {:induction false} SortByMtimeCorrect(s: seq<ImageFile>)
    ensures SortedByMtime(SortByMtime(s))
    ensures multiset(SortByMtime(s)) == multiset(s)
    ensures forall m :: WithMtime(SortByMtime(s), m) == WithMtime(s, m)
    decreases |s|
  {
    if s != [] {
      SortByMtimeCorrect(s[1..]);
      InsertSorted(s[0], SortByMtime(s[1..]));
      InsertPermutes(s[0], SortByMtime(s[1..]));
      assert s == [s[0]] + s[1..];
      forall m ensures WithMtime(SortByMtime(s), m) == WithMtime(s, m) {
        InsertStable(s[0], SortByMtime(s[1..]), m);
      }
    }
  }

  /** The sort's order and length alone, for callers that need no more. */
  lemma SortByMtimeSorted(s: seq<ImageFile>)
    ensures SortedByMtime(SortByMtime(s)) && |SortByMtime(s)| == |s|
  {
    SortByMtimeCorrect(s);
  }

  /** The number of images attached, for `n` the configured count and `total`
      the number of `.jpg` files: `[-n:]` keeps the last `n`, all of them for
      `n = 0`, and drops the first `-n` for a negative `n`. */
  function ExpectedCount(n: int, total: nat): nat
  {
    if n == 0 then total
    else if n > 0 then (if n < total then n else total)
    else (if total + n < 0 then 0 else total + n)
  }

  /** `s[-n:]` of a sorted list: as many files as the slice keeps, a suffix,
      sorted, and nothing it drops is newer than anything it keeps. */
  lemma NewestSuffix(s: seq<ImageFile>, n: int)
    requires SortedByMtime(s)
    ensures var r := SliceFrom(s, -n);
      && |r| == ExpectedCount(n, |s|)
      && r == s[|s| - |r|..]
      && SortedByMtime(r)
      && (forall i, j :: 0 <= i < |s| - |r| <= j < |s| ==> s[i].mtime <= s[j].mtime)
  {
    var r := SliceFrom(s, -n);
    var lo := |s| - |r|;
    assert r == s[lo..];
    forall i, j | 0 <= i < j < |r| ensures r[i].mtime <= r[j].mtime {
      assert r[i] == s[lo + i] && r[j] == s[lo + j];
    }
  }

  /** Every attached image is a listed `.jpg` file. */
  lemma SelectedAreListedJpgs(files: seq<ImageFile>, configured: Option<int>)
    ensures forall x :: x in SelectImages(files, configured) ==> x in files && IsJpg(x.name)
  {
    var jpgs := JpgFiles(files);
    var sorted := SortByMtime(jpgs);
    SortByMtimeCorrect(jpgs);
    JpgFilesAreTheJpgs(files);
    forall x | x in SelectImages(files, configured) ensures x in files && IsJpg(x.name) {
      assert x in sorted;
      assert x in multiset(sorted);
      assert x in jpgs;
    }
  }

  /** The attached images are the newest `.jpg` files: a suffix of them sorted
      by modification time, as many as the slice allows, oldest first. */
  lemma SelectionIsNewest(files: seq<ImageFile>, configured: Option<int>)
    ensures var sorted := SortByMtime(JpgFiles(files));
      var r := SelectImages(files, configured);
      && |r| == ExpectedCount(ImageCount(configured), |JpgFiles(files)|)
      && r == sorted[|sorted| - |r|..]
      && SortedByMtime(r)
      && (forall i, j :: 0 <= i < |sorted| - |r| <= j < |sorted| ==> sorted[i].mtime <= sorted[j].mtime)
      && (forall x :: x in r ==> x in files && IsJpg(x.name))
  {
    var jpgs := JpgFiles(files);
    SortByMtimeSorted(jpgs);
    NewestSuffix(SortByMtime(jpgs), ImageCount(configured));
    assert SelectImages(files, configured) == SliceFrom(SortByMtime(jpgs), -ImageCount(configured));
    SelectedAreListedJpgs(files, configured);
  }

  /** The e-mail is sent exactly when there is a `.jpg` file and the slice
      keeps one: always for a positive or zero count, and for a negative count
      `-k` only when there are more than `k` files. */
  lemma SendsEmailIff(files: seq<ImageFile>, configured: Option<int>)
    ensures var n := ImageCount(configured);
      SendsEmail(files, configured) <==> |JpgFiles(files)| > 0 && (n >= 0 || |JpgFiles(files)| > -n)
  {
    SelectionIsNewest(files, configured);
  }

  /** With the default count, any directory holding a `.jpg` file gets its e-mail,
      with at most six images. */
  lemma DefaultSendsUpToSix(files: seq<ImageFile>)
    ensures SendsEmail(files, None) <==> exists x :: x in files && IsJpg(x.name)
    ensures |SelectImages(files, None)| <= 6
  {
    SelectionIsNewest(files, None);
    JpgFilesAreTheJpgs(files);
    if exists x :: x in files && IsJpg(x.name) {
      var x :| x in files && IsJpg(x.name);
      assert x in JpgFiles(files);
    }
  }

  /** Every picture `capture_image` takes is named so that the daily e-mail
      considers it. */
  lemma CapturesAreJpg(imageLabel: string, t: DateTime)
    ensures IsJpg(ImageName(imageLabel, t))
  {
  }
}
