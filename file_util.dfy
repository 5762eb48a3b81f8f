/**
 * Path helpers for moving between Windows and Linux: turning backslashes
 * into slashes, and choosing the base drive for the running platform.
 */
module FileUtil {
  import opened Wrappers
  import opened Text

  /**
   * `fname.replace("\\", "/")`: every backslash becomes a slash, every
   * other character stays where it was.
   */
  function ReplaceYen(fname: string): (r: string)
    ensures |r| == |fname|
    ensures forall i :: 0 <= i < |fname| ==> r[i] == if fname[i] == '\\' then '/' else fname[i]
    ensures '\\' !in r
  {
    ReplaceCharAt(fname, '\\', '/');
    ReplaceAll(fname, "\\", "/")
  }

  /** A path already free of backslashes is left as it is. */
  lemma ReplaceYenKeeps(fname: string)
    requires '\\' !in fname
    ensures ReplaceYen(fname) == fname
  {
    assert forall i :: 0 <= i < |fname| ==> fname[i] in fname;
  }

  /** Converting twice is converting once. */
  lemma ReplaceYenIdempotent(fname: string)
    ensures ReplaceYen(ReplaceYen(fname)) == ReplaceYen(fname)
  {
    ReplaceYenKeeps(ReplaceYen(fname));
  }

  /** `some\\folder\\file.txt` (two backslashes each time) becomes `some//folder//file.txt`. */
  lemma ReplaceYenExample()
    ensures ReplaceYen("some\\\\folder\\\\file.txt") == "some//folder//file.txt"
  {
    var sep := "\\\\";
    assert "some\\\\folder\\\\file.txt" == "some" + sep + ("folder" + sep + "file.txt");
    assert "some//folder//file.txt" == "some" + "//" + ("folder" + "//" + "file.txt");
    ReplaceYenKeeps("some");
    ReplaceYenKeeps("folder");
    ReplaceYenKeeps("file.txt");
    assert ReplaceYen(sep) == "//";
    ReplaceYenConcat("folder", sep, "file.txt");
    ReplaceYenConcat("some", sep, "folder" + sep + "file.txt");
  }

  /** Converting a path piece by piece is converting it whole. */
  lemma ReplaceYenConcat(a: string, b: string, c: string)
    ensures ReplaceYen(a + b + c) == ReplaceYen(a) + ReplaceYen(b) + ReplaceYen(c)
  {
  }

  /**
   * `init_base_drive(prefix)` on platform `platform`, with `pathExists`
   * standing for `os.path.exists`: the platform's entry of `prefix`;
   * `ValueError` when the platform has none or its path cannot be reached.
   */
  function InitBaseDrive(prefix: map<string, string>, platform: string, pathExists: string -> bool): (r: Result<string>)
    ensures r.Raised? ==> r.exc == ValueError
    ensures platform !in prefix ==> r.Raised?
    ensures r.Ok? <==> platform in prefix && pathExists(prefix[platform])
    ensures r.Ok? ==> r.value == prefix[platform] && pathExists(r.value)
  {
    if platform !in prefix then Raised(ValueError)
    else
      var dirbase := prefix[platform];
      if !pathExists(dirbase) then Raised(ValueError) else Ok(dirbase)
  }

  /** On Linux, with every path reachable, `{"Windows": …, "Linux": d}` selects `d`. */
  lemma InitBaseDriveExample(d: string)
    ensures InitBaseDrive(map["Windows" := "C:\\Data", "Linux" := d], "Linux", p => true) == Ok(d)
  {
  }
}
