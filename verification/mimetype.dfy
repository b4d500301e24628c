/**
 * MIME type of the video file, as `VideoThumbnailer::getMimeType` derives it
 * from the extension: a chain of case-sensitive equality tests in which the
 * first matching branch wins, and "" when no branch matches.
 */
module MimeType {

  import opened Wrappers
  import Extension

  /** One `else if` of the chain: the extensions it compares with, and what it returns. */
  datatype Branch = Branch(extensions: seq<string>, mimeType: string)

  /** The chain in source order. Branches 5 and 6 both test "mp4". */
  const MimeBranches: seq<Branch> := [
    Branch(["avi"], "video/x-msvideo"),
    Branch(["mpeg", "mpg", "mpe", "vob"], "video/mpeg"),
    Branch(["qt", "mov"], "video/quicktime"),
    Branch(["asf", "asx"], "video/x-ms-asf"),
    Branch(["wm"], "video/x-ms-wm"),
    Branch(["mp4"], "video/x-ms-wmv"),
    Branch(["mp4"], "video/mp4"),
    Branch(["flv"], "video/x-flv")
  ]

  /** Index of the first branch at or after `from` whose tests accept `extension`, if any. */
  function FirstMatch(branches: seq<Branch>, extension: string, from: nat := 0): (r: Option<nat>)
    requires from <= |branches|
    decreases |branches| - from
    ensures r.Some? ==> from <= r.value < |branches| && extension in branches[r.value].extensions
    ensures r.Some? ==> forall j :: from <= j < r.value ==> extension !in branches[j].extensions
    ensures r.None? <==> forall j :: from <= j < |branches| ==> extension !in branches[j].extensions
  {
    if from == |branches| then None
    else if extension in branches[from].extensions then Some(from)
    else FirstMatch(branches, extension, from + 1)
  }

  /** The value of the chain of tests for `extension`. */
  function MimeTypeOf(extension: string): (mimeType: string)
    ensures mimeType == "" <==> forall j :: 0 <= j < |MimeBranches| ==> extension !in MimeBranches[j].extensions
  {
    match FirstMatch(MimeBranches, extension)
    case None => ""
    case Some(i) => MimeBranches[i].mimeType
  }

  /** `getMimeType()`: the MIME type of the thumbnailer's video file name. */
  function GetMimeType(videoFileName: string): (mimeType: string)
    ensures '.' !in videoFileName ==> mimeType == ""
  {
    MimeTypeOf(Extension.GetExtension(videoFileName))
  }

  /** The chain's value is that of the first branch accepting the extension. */
  lemma MimeTypeFromBranch(extension: string, i: nat)
    requires i < |MimeBranches| && extension in MimeBranches[i].extensions
    requires forall j :: 0 <= j < i ==> extension !in MimeBranches[j].extensions
    ensures MimeTypeOf(extension) == MimeBranches[i].mimeType
  {
  }

  /**
   * The lookup table the thumbnailer effectively implements, one row per
   * listed extension; "mp4" maps to the first of its two branches.
   */
  const ListedMimeTypes: seq<(string, string)> := [
    ("avi", "video/x-msvideo"),
    ("mpeg", "video/mpeg"), ("mpg", "video/mpeg"), ("mpe", "video/mpeg"), ("vob", "video/mpeg"),
    ("qt", "video/quicktime"), ("mov", "video/quicktime"),
    ("asf", "video/x-ms-asf"), ("asx", "video/x-ms-asf"),
    ("wm", "video/x-ms-wm"),
    ("mp4", "video/x-ms-wmv"),
    ("flv", "video/x-flv")
  ]

  /** Every listed extension yields its literal MIME type. */
  lemma MimeTypeTable(k: nat)
    requires k < |ListedMimeTypes|
    ensures MimeTypeOf(ListedMimeTypes[k].0) == ListedMimeTypes[k].1
  {
    var branch := if k == 0 then 0 else if k <= 4 then 1 else if k <= 6 then 2
                  else if k <= 8 then 3 else if k == 9 then 4 else if k == 10 then 5 else 7;
    MimeTypeFromBranch(ListedMimeTypes[k].0, branch);
  }

  /** An extension that none of the branches lists has no MIME type. */
  lemma UnlistedExtensionHasNoMimeType(extension: string)
    requires forall k :: 0 <= k < |ListedMimeTypes| ==> extension != ListedMimeTypes[k].0
    ensures MimeTypeOf(extension) == ""
  {
    assert extension !in ["avi", "mpeg", "mpg", "mpe", "vob", "qt", "mov", "asf", "asx", "wm", "mp4", "flv"] by {
      assert extension != ListedMimeTypes[0].0 && extension != ListedMimeTypes[1].0;
      assert extension != ListedMimeTypes[2].0 && extension != ListedMimeTypes[3].0;
      assert extension != ListedMimeTypes[4].0 && extension != ListedMimeTypes[5].0;
      assert extension != ListedMimeTypes[6].0 && extension != ListedMimeTypes[7].0;
      assert extension != ListedMimeTypes[8].0 && extension != ListedMimeTypes[9].0;
      assert extension != ListedMimeTypes[10].0 && extension != ListedMimeTypes[11].0;
    }
  }

  /**
   * A branch whose extensions all appear in an earlier branch is never the
   * first match: the earlier branch always catches them.
   */
  lemma ShadowedBranchNeverMatches(branches: seq<Branch>, i: nat, j: nat, extension: string)
    requires i < j < |branches|
    requires forall e :: e in branches[j].extensions ==> e in branches[i].extensions
    ensures FirstMatch(branches, extension) != Some(j)
  {
  }

  /** The second "mp4" branch, which would return "video/mp4", is dead code. */
  lemma Mp4VideoMp4BranchIsDead(extension: string)
    ensures FirstMatch(MimeBranches, extension) != Some(6)
    ensures MimeTypeOf(extension) != "video/mp4"
  {
    ShadowedBranchNeverMatches(MimeBranches, 5, 6, extension);
  }

  /** A file name's MIME type is that of the text after its last '.'. */
  lemma MimeTypeOfFileName(prefix: string, extension: string)
    requires '.' !in extension
    ensures GetMimeType(prefix + "." + extension) == MimeTypeOf(extension)
  {
    Extension.ExtensionAfterLastDot(prefix, extension);
  }

  const LowerMp4: string := "mp4"
  const UpperMp4: string := "MP4"

  /**
   * Matching is case-sensitive and exact: "MP4" gets no MIME type, while
   * "mp4" gets that of the first "mp4" branch.
   */
  lemma MatchingIsCaseSensitive()
    ensures MimeTypeOf(UpperMp4) == ""
    ensures MimeTypeOf(LowerMp4) == "video/x-ms-wmv"
  {
    UnlistedExtensionHasNoMimeType(UpperMp4);
    MimeTypeFromBranch(LowerMp4, 5);
  }
}
