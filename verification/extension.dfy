/**
 * File-name extension of a video file, as `VideoThumbnailer::getExtension`
 * computes it: the text after the last '.', or "" when there is no '.'.
 */
module Extension {

  import opened Wrappers

  /** Index of the last '.' in `s` (`rfind('.')`); `None` stands for `npos`. */
  function LastDot(s: string): (r: Option<nat>)
    ensures r.Some? ==> r.value < |s| && s[r.value] == '.' && '.' !in s[r.value + 1..]
    ensures r.None? <==> '.' !in s
  {
    if |s| == 0 then None
    else if s[|s| - 1] == '.' then Some(|s| - 1)
    else
      var r := LastDot(s[..|s| - 1]);
      if r.Some? then
        assert s[r.value + 1..] == s[..|s| - 1][r.value + 1..] + [s[|s| - 1]];
        r
      else
        assert s == s[..|s| - 1] + [s[|s| - 1]];
        r
  }

  /**
   * The suffix after the last '.' of `videoFilename`, or "" when it holds no '.'.
   * Whatever is returned, the file name is rebuilt as prefix + "." + extension.
   */
  function GetExtension(videoFilename: string): (extension: string)
    ensures '.' !in videoFilename ==> extension == ""
    ensures '.' in videoFilename ==>
      && '.' !in extension
      && |extension| < |videoFilename|
      && videoFilename == videoFilename[..|videoFilename| - |extension| - 1] + "." + extension
  {
    match LastDot(videoFilename)
    case None => ""
    case Some(pos) =>
      assert videoFilename == videoFilename[..pos] + "." + videoFilename[pos + 1..];
      videoFilename[pos + 1..]
  }

  /**
   * The extension is determined by the last '.': any file name written as
   * prefix + "." + ext with no '.' in ext has extension exactly ext
   * (ext == "" is the trailing-dot case).
   */
  lemma ExtensionAfterLastDot(prefix: string, ext: string)
    requires '.' !in ext
    ensures GetExtension(prefix + "." + ext) == ext
  {
    var s := prefix + "." + ext;
    assert s[|prefix|] == '.';
    var pos := LastDot(s).value;
    assert pos == |prefix|;
    assert s[pos + 1..] == ext;
  }
}
