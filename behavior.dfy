/**
 * The DeepLabCut body-part tables of the behaviour parameters, the
 * lookups that pick the head-centre and body-centre parts out of them,
 * and the full paths of a recording's raw videos.
 */
module Behavior {
  import opened Wrappers
  import opened FileUtil
  import opened PosixPath

  /** `DLC_MODEL_VERSIONs` */
  const DlcModelVersions: seq<int> := [2020, 2025, 2026]

  /** `DLC_BODY_PARTS`: the tracked body parts of each model version, in column order. */
  const DlcBodyParts: map<int, seq<string>> := map[
    2020 := ["left_ear", "right_ear", "snout", "centroid", "left_lateral", "right_lateral", "tail_base"],
    2025 := ["snout", "right_ear", "left_ear", "head_top", "tail_base", "rump_center", "centroid",
             "chest_center", "tail_end", "tail_dist", "tail_prox"],
    2026 := ["head_midpoint", "tail_end", "right_hip", "right_midside", "right_shoulder", "left_hip",
             "left_midside", "left_shoulder", "tail5", "tail4", "tail3", "tail2", "tail1", "tail_base",
             "mid_backend3", "mid_backend2", "mid_backend", "mouse_center", "mid_back", "neck",
             "right_ear_tip", "left_ear_tip", "right_ear", "left_ear", "right_eye", "left_eye", "nose"]
  ]

  /** `DLC_HEAD_CENTER`: positions of the parts averaged into the head centre. */
  const DlcHeadCenter: map<int, seq<int>> := map[
    2020 := [0, 1, 2], 2025 := [0, 1, 2, 3], 2026 := [0, 22, 23, 24, 25, 26]
  ]

  /** `DLC_BODY_CENTER`: positions of the parts averaged into the body centre. */
  const DlcBodyCenter: map<int, seq<int>> := map[
    2020 := [3, 4, 5, 6], 2025 := [4, 5, 6, 7], 2026 := [3, 4, 5, 6, 7, 8, 16, 17, 18]
  ]

  /** Every position in `idx` names a part of `parts`. */
  predicate InBounds(idx: seq<int>, parts: seq<string>) {
    forall j :: 0 <= j < |idx| ==> 0 <= idx[j] < |parts|
  }

  /**
   * The three tables cover exactly the listed model versions, and every
   * centre position is a valid index into that version's part list.
   */
  lemma TablesConsistent()
    ensures DlcBodyParts.Keys == DlcHeadCenter.Keys == DlcBodyCenter.Keys == set v | v in DlcModelVersions
    ensures forall v :: v in DlcHeadCenter ==> InBounds(DlcHeadCenter[v], DlcBodyParts[v])
    ensures forall v :: v in DlcBodyCenter ==> InBounds(DlcBodyCenter[v], DlcBodyParts[v])
  {
    assert |DlcBodyParts[2020]| == 7 && |DlcBodyParts[2025]| == 11 && |DlcBodyParts[2026]| == 27;
  }

  /** `DLCParam.get_dlc_body_parts_all()`: `KeyError` for a version without a table. */
  function GetDlcBodyPartsAll(version: Option<int>): (r: Result<seq<string>>)
    ensures r.Ok? <==> version.Some? && version.value in DlcModelVersions
    ensures r.Raised? ==> r.exc == KeyError
    ensures r.Ok? ==> r.value == DlcBodyParts[version.value]
  {
    TablesConsistent();
    if version.Some? && version.value in DlcBodyParts then Ok(DlcBodyParts[version.value]) else Raised(KeyError)
  }

  /**
   * `[DLC_BODY_PARTS[v][i] for i in table[v]]`: the parts at the table's
   * positions, in the table's order; `KeyError` when `v` has no entry.
   */
  function PartsAt(table: map<int, seq<int>>, version: Option<int>): (r: Result<seq<string>>)
    requires table == DlcHeadCenter || table == DlcBodyCenter
    ensures r.Ok? <==> version.Some? && version.value in DlcModelVersions
    ensures r.Raised? ==> r.exc == KeyError
    ensures r.Ok? ==> |r.value| == |table[version.value]|
    ensures r.Ok? ==> forall j :: 0 <= j < |r.value| ==> r.value[j] in DlcBodyParts[version.value]
    ensures r.Ok? ==> forall j :: 0 <= j < |r.value| ==>
      0 <= table[version.value][j] < |DlcBodyParts[version.value]| &&
      r.value[j] == DlcBodyParts[version.value][table[version.value][j]]
  {
    TablesConsistent();
    if version.None? || version.value !in table then Raised(KeyError)
    else
      Ok(Gather(DlcBodyParts[version.value], table[version.value]))
  }

  /** The parts at positions `idx`, in the order of `idx`. */
  function Gather(parts: seq<string>, idx: seq<int>): (r: seq<string>)
    requires InBounds(idx, parts)
    ensures |r| == |idx| && forall j :: 0 <= j < |idx| ==> r[j] == parts[idx[j]]
  {
    if idx == [] then [] else [parts[idx[0]]] + Gather(parts, idx[1..])
  }

  /** `DLCParam.get_dlc_parts_for_head_center()` */
  function GetDlcPartsForHeadCenter(version: Option<int>): Result<seq<string>> {
    PartsAt(DlcHeadCenter, version)
  }

  /** `DLCParam.get_dlc_parts_for_body_center()` */
  function GetDlcPartsForBodyCenter(version: Option<int>): Result<seq<string>> {
    PartsAt(DlcBodyCenter, version)
  }

  /** The 2020 model's head centre is its ears and snout; its body centre the four trunk points. */
  lemma CenterParts2020()
    ensures GetDlcPartsForHeadCenter(Some(2020)) == Ok(["left_ear", "right_ear", "snout"])
    ensures GetDlcPartsForBodyCenter(Some(2020)) == Ok(["centroid", "left_lateral", "right_lateral", "tail_base"])
  {
    TablesConsistent();
    var parts := DlcBodyParts[2020];
    var head := Gather(parts, [0, 1, 2]);
    assert head == [parts[0], parts[1], parts[2]];
    var body := Gather(parts, [3, 4, 5, 6]);
    assert body == [parts[3], parts[4], parts[5], parts[6]];
  }

  /** The 2026 model's head centre is the head midpoint, ears, eyes and nose. */
  lemma HeadCenterParts2026()
    ensures GetDlcPartsForHeadCenter(Some(2026)) ==
      Ok(["head_midpoint", "right_ear", "left_ear", "right_eye", "left_eye", "nose"])
  {
    TablesConsistent();
    var parts := DlcBodyParts[2026];
    var head := Gather(parts, [0, 22, 23, 24, 25, 26]);
    assert head == [parts[0], parts[22], parts[23], parts[24], parts[25], parts[26]];
  }

  /** `basedir / replace_yen_in_path_for_linux(entry)`: one raw video's full path. */
  function VideoFullPath(basedir: string, entry: string): string {
    JoinPath(basedir, ReplaceYen(entry))
  }

  /**
   * A video path is free of backslashes when the base directory is, and a
   * relative entry keeps the base directory in front of it.
   */
  lemma VideoFullPathShape(basedir: string, entry: string)
    ensures '\\' !in basedir ==> '\\' !in VideoFullPath(basedir, entry)
    ensures |entry| > 0 && entry[0] != '/' && entry[0] != '\\' && basedir != "" ==>
      VideoFullPath(basedir, entry)[..|basedir|] == basedir
  {
    var e := ReplaceYen(entry);
    var r := VideoFullPath(basedir, entry);
    if '\\' !in basedir {
      forall i | 0 <= i < |r| ensures r[i] != '\\' {
        if |e| > 0 && e[0] == '/' {
          assert r[i] == e[i];
        } else if basedir == "" || basedir[|basedir| - 1] == '/' {
          assert r == basedir + e;
          if i < |basedir| {
            assert r[i] == basedir[i];
            assert basedir[i] in basedir;
          } else {
            assert r[i] == e[i - |basedir|];
            assert e[i - |basedir|] in e;
          }
        } else {
          assert r == basedir + "/" + e;
          if i < |basedir| {
            assert r[i] == basedir[i];
            assert basedir[i] in basedir;
          } else if i > |basedir| {
            assert r[i] == e[i - |basedir| - 1];
            assert e[i - |basedir| - 1] in e;
          }
        }
      }
    }
  }

  /** A recording's raw videos. */
  class VideoInfo {
    var rawVideoList: seq<string>

    constructor (rawVideoList: seq<string>)
      ensures this.rawVideoList == rawVideoList
    {
      this.rawVideoList := rawVideoList;
    }

    /**
     * `get_video_full_path_list(basedir)`: one full path per raw video,
     * in the list's order.
     */
    method GetVideoFullPathList(basedir: string) returns (videoList: seq<string>)
      ensures |videoList| == |rawVideoList|
      ensures forall i :: 0 <= i < |rawVideoList| ==> videoList[i] == VideoFullPath(basedir, rawVideoList[i])
    {
      videoList := [];
      for i := 0 to |rawVideoList|
        invariant |videoList| == i
        invariant forall j :: 0 <= j < i ==> videoList[j] == VideoFullPath(basedir, rawVideoList[j])
      {
        videoList := videoList + [VideoFullPath(basedir, rawVideoList[i])];
      }
    }
  }
}
