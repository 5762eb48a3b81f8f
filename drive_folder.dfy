/**
 * The name handling of the Google Drive folder downloader: the folder ID
 * taken from a share URL, the ZIP archives picked out of a folder listing,
 * and the dataset name of each archive.
 */
module DriveFolder {
  import opened Wrappers
  import opened Text

  /** `extract_folder_id(url)`: the text after `folders/`, cut at the next `folders/` and then at `?`. */
  function ExtractFolderId(url: string): (r: Result<string>)
    ensures r.Raised? <==> !Contains(url, "folders/")
    ensures r.Raised? ==> r.exc == ValueError
    ensures r.Ok? ==> '?' !in r.value && !Contains(r.value, "folders/")
  {
    if Contains(url, "folders/") then
      var parts := Split(url, "folders/");
      SplitSeveral(url, "folders/");
      var id := Split(parts[1], "?")[0];
      SplitFirstPrefix(parts[1], "?");
      PrefixAvoids(parts[1], id, "folders/");
      NoCharPattern(id, '?');
      Ok(id)
    else
      Raised(ValueError)
  }

  /** A string holding the separator splits into at least two pieces. */
  lemma SplitSeveral(s: string, sep: string)
    requires |sep| > 0 && Contains(s, sep)
    ensures |Split(s, sep)| >= 2
  {
    SplitAbsent(s, sep);
  }

  /** The first piece of a split is a prefix of the string. */
  lemma SplitFirstPrefix(s: string, sep: string)
    requires |sep| > 0
    ensures StartsWith(s, Split(s, sep)[0])
  {
    var i := Find(s, sep);
    if i >= 0 {
      assert Split(s, sep)[0] == s[..i];
    }
  }

  /** A prefix of a string that does not hold `pat` does not hold it either. */
  lemma PrefixAvoids(s: string, p: string, pat: string)
    requires StartsWith(s, p) && !Contains(s, pat)
    ensures !Contains(p, pat)
  {
    forall i | 0 <= i <= |p| - |pat| && OccursAt(p, pat, i) ensures false {
      assert p[i..i + |pat|] == s[i..i + |pat|];
      assert OccursAt(s, pat, i);
    }
  }

  /** A string that does not hold the one-character pattern `[c]` has no `c`. */
  lemma NoCharPattern(s: string, c: char)
    requires !Contains(s, [c])
    ensures c !in s
  {
    forall i | 0 <= i < |s| ensures s[i] != c {
      assert !OccursAt(s, [c], i);
      assert s[i..i + 1] == [s[i]];
    }
  }

  /**
   * A share URL `<prefix>folders/<id>?<query>` yields `<id>` when the
   * written `folders/` is the first one and the ID holds neither `?` nor
   * `folders/`; the query may hold anything.
   */
  lemma FolderIdOfUrl(prefix: string, id: string, query: string)
    requires !Contains(prefix + "folders", "folders/")
    requires '?' !in id && !Contains(id, "folders/")
    ensures ExtractFolderId(prefix + "folders/" + (id + "?" + query)) == Ok(id)
  {
    var rest := id + "?" + query;
    var url := prefix + "folders/" + rest;
    assert "folders/"[..|"folders/"| - 1] == "folders";
    SplitAfterFirst(prefix, "folders/", rest);
    assert OccursAt(url, "folders/", |prefix|) by {
      assert url[|prefix|..|prefix| + 8] == "folders/";
    }
    var piece := Split(rest, "folders/")[0];
    FirstPieceKeepsId(id, query);
    assert piece == id + "?" + piece[|id| + 1..];
    SplitAfterPrefix(id, "?", piece[|id| + 1..]);
  }

  /**
   * A share URL `<prefix>folders/<id>` with nothing after the ID yields
   * `<id>` under the same conditions.
   */
  lemma FolderIdNoQuery(prefix: string, id: string)
    requires !Contains(prefix + "folders", "folders/")
    requires '?' !in id && !Contains(id, "folders/")
    ensures ExtractFolderId(prefix + "folders/" + id) == Ok(id)
  {
    var url := prefix + "folders/" + id;
    assert "folders/"[..|"folders/"| - 1] == "folders";
    SplitAfterFirst(prefix, "folders/", id);
    assert OccursAt(url, "folders/", |prefix|) by {
      assert url[|prefix|..|prefix| + 8] == "folders/";
    }
    SplitAbsent(id, "folders/");
    CharAbsent(id, '?');
    SplitAbsent(id, "?");
  }

  /** A string without the character `c` does not hold the pattern `[c]`. */
  lemma CharAbsent(s: string, c: char)
    requires c !in s
    ensures !Contains(s, [c])
  {
    forall i | 0 <= i < |s| ensures !OccursAt(s, [c], i) {
      assert s[i..i + 1] == [s[i]];
    }
  }

  /**
   * The piece of `<id>?<query>` before its first `folders/` still starts
   * with `<id>?` when the ID holds no `folders/` and no `?`.
   */
  lemma FirstPieceKeepsId(id: string, query: string)
    requires '?' !in id && !Contains(id, "folders/")
    ensures var piece := Split(id + "?" + query, "folders/")[0];
      |piece| > |id| && piece[..|id| + 1] == id + "?"
  {
    var sep := "folders/";
    var rest := id + "?" + query;
    var i := Find(rest, sep);
    if i < 0 {
      SplitAbsent(rest, sep);
    } else {
      if i <= |id| {
        NoEarlySeparator(id, query, i);
      }
      assert Split(rest, sep)[0] == rest[..i];
    }
  }

  /** No `folders/` of `<id>?<query>` starts inside `<id>` or at its `?`. */
  lemma NoEarlySeparator(id: string, query: string, j: nat)
    requires '?' !in id && !Contains(id, "folders/") && j <= |id|
    ensures !OccursAt(id + "?" + query, "folders/", j)
  {
    var sep := "folders/";
    var rest := id + "?" + query;
    if j + |sep| <= |rest| {
      if j + |sep| <= |id| {
        assert rest[j..j + |sep|] == id[j..j + |sep|];
        assert !OccursAt(id, sep, j);
      } else {
        assert rest[j..j + |sep|][|id| - j] == rest[|id|] == '?';
        assert sep[|id| - j] != '?';
      }
    }
  }

  /** An entry of a Drive folder listing. */
  datatype DriveFile = DriveFile(id: string, name: string)

  /** The name ends in `.zip`, in any letter case. */
  predicate IsZipName(name: string) {
    EndsWith(Lower(name), ".zip")
  }

  /**
   * `list_zip_files`' filter over `results.get("files", [])`: the entries
   * whose name is a ZIP archive's, in listing order.
   */
  function ZipFiles(files: Option<seq<DriveFile>>): (r: seq<DriveFile>)
    ensures files.None? ==> r == []
  {
    match files
      case None => []
      case Some(fs) => KeepZips(fs)
  }

  /** The entries of `xs` that `keep` accepts, in order. */
  function Filter<T>(xs: seq<T>, keep: T -> bool): (r: seq<T>)
    ensures |r| <= |xs|
  {
    if xs == [] then []
    else if keep(xs[0]) then [xs[0]] + Filter(xs[1..], keep)
    else Filter(xs[1..], keep)
  }

  /** An entry is kept exactly when it is in the list and accepted. */
  lemma {:induction false} FilterMembers<T>(xs: seq<T>, keep: T -> bool)
    ensures forall x :: x in Filter(xs, keep) <==> x in xs && keep(x)
  {
    if xs != [] {
      FilterMembers(xs[1..], keep);
      assert xs == [xs[0]] + xs[1..];
    }
  }

  /** Filtering a list in two parts gives the two filtered parts, in the same order. */
  lemma {:induction false} FilterAppend<T>(a: seq<T>, b: seq<T>, keep: T -> bool)
    ensures Filter(a + b, keep) == Filter(a, keep) + Filter(b, keep)
  {
    if a == [] {
      assert a + b == b;
    } else {
      FilterAppend(a[1..], b, keep);
      assert (a + b)[0] == a[0];
      assert (a + b)[1..] == a[1..] + b;
      if keep(a[0]) {
        assert [a[0]] + (Filter(a[1..], keep) + Filter(b, keep)) ==
          [a[0]] + Filter(a[1..], keep) + Filter(b, keep);
      }
    }
  }

  /** Filtering twice is filtering once. */
  lemma {:induction false} FilterIdempotent<T>(xs: seq<T>, keep: T -> bool)
    ensures Filter(Filter(xs, keep), keep) == Filter(xs, keep)
  {
    if xs != [] {
      FilterIdempotent(xs[1..], keep);
      if keep(xs[0]) {
        assert ([xs[0]] + Filter(xs[1..], keep))[1..] == Filter(xs[1..], keep);
      }
    }
  }

  /** The listing entry names a ZIP archive. */
  predicate IsZip(f: DriveFile) {
    IsZipName(f.name)
  }

  /** The ZIP entries of `fs`, in order. */
  function KeepZips(fs: seq<DriveFile>): seq<DriveFile> {
    Filter(fs, IsZip)
  }

  /**
   * The ZIP filter keeps exactly the ZIP entries, in listing order, and
   * filtering a second time removes nothing more.
   */
  lemma KeepZipsProperties(a: seq<DriveFile>, b: seq<DriveFile>)
    ensures forall f :: f in KeepZips(a) <==> f in a && IsZipName(f.name)
    ensures KeepZips(a + b) == KeepZips(a) + KeepZips(b)
    ensures KeepZips(KeepZips(a)) == KeepZips(a)
  {
    FilterMembers(a, IsZip);
    FilterAppend(a, b, IsZip);
    FilterIdempotent(a, IsZip);
  }

  /** An archive name ends in `.zip` or `.ZIP`; both count. */
  lemma ZipNameOf(stem: string)
    ensures IsZipName(stem + ".zip") && IsZipName(stem + ".ZIP")
  {
    ZipSuffix(stem, ".zip");
    ZipSuffix(stem, ".ZIP");
  }

  /** A name ending in `.zip` in lower or upper case lowers to one ending in `.zip`. */
  lemma ZipSuffix(stem: string, ext: string)
    requires ext == ".zip" || ext == ".ZIP"
    ensures IsZipName(stem + ext)
  {
    var n := |stem|;
    var low := Lower(stem + ext);
    assert (stem + ext)[n..] == ext;
    assert low[n] == '.' && low[n + 1] == 'z' && low[n + 2] == 'i' && low[n + 3] == 'p';
    LastFour(low, n);
  }

  /** A string whose last four characters spell `.zip` ends with `.zip`. */
  lemma LastFour(s: string, n: nat)
    requires |s| == n + 4 && s[n] == '.' && s[n + 1] == 'z' && s[n + 2] == 'i' && s[n + 3] == 'p'
    ensures EndsWith(s, ".zip")
  {
    assert s[|s| - 4..] == [s[n], s[n + 1], s[n + 2], s[n + 3]];
  }

  /** `f["name"].replace(".zip", "")`: the archive's name with every `.zip` taken out. */
  function DatasetName(name: string): string {
    ReplaceAll(name, ".zip", "")
  }

  /** A name without `.zip` is its own dataset name. */
  lemma DatasetNameKeeps(name: string)
    requires !Contains(name, ".zip")
    ensures DatasetName(name) == name
  {
    SplitAbsent(name, ".zip");
  }

  /** `<stem>.zip`, whose final `.zip` is its only one, names the dataset `<stem>`. */
  lemma DatasetNameOfArchive(stem: string)
    requires !Contains(stem + ".zi", ".zip")
    ensures DatasetName(stem + ".zip") == stem
  {
    assert ".zip"[..|".zip"| - 1] == ".zi";
    SplitAfterFirst(stem, ".zip", "");
    assert stem + ".zip" + "" == stem + ".zip";
    SplitAbsent("", ".zip");
    assert Split(stem + ".zip", ".zip") == [stem, ""];
    assert Join([stem, ""], "") == stem + "" + Join([""], "");
  }
}
