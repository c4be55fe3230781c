/** Where the XLSForm comparison report is written (FormComparator.py:44-52):
    a file name built from the two forms' ids and versions, placed under the
    output directory unless that directory is ".". */
module ReportNames {
  import opened Wrappers
  import opened Seqs

  /** `"{}#{}!{}#{}.xlsx".format(cur.id, cur.version, ref.id, ref.version)` */
  function OutputFileName(curId: string, curVersion: string, refId: string, refVersion: string): (name: string)
    ensures |name| == |curId| + |curVersion| + |refId| + |refVersion| + 8
    ensures name[|name| - 5..] == ".xlsx"
  {
    curId + "#" + curVersion + "!" + refId + "#" + refVersion + ".xlsx"
  }

  /** Recovers the ids and versions from a report file name. */
  function ParseOutputFileName(name: string): Option<(string, string, string, string)> {
    if |name| < 5 || name[|name| - 5..] != ".xlsx" then None
    else
      match SplitAtFirst(name[..|name| - 5], '#')
      case None => None
      case Some((curId, rest1)) =>
        match SplitAtFirst(rest1, '!')
        case None => None
        case Some((curVersion, rest2)) =>
          match SplitAtFirst(rest2, '#')
          case None => None
          case Some((refId, refVersion)) => Some((curId, curVersion, refId, refVersion))
  }

  /** The file name identifies both forms: reading it back gives the ids and
      versions it was built from, provided the current id and the reference
      id hold no '#' and the current version holds no '!'. */
  lemma ParseOutputFileNameRoundTrip(curId: string, curVersion: string, refId: string, refVersion: string)
    requires '#' !in curId && '!' !in curVersion && '#' !in refId
    ensures ParseOutputFileName(OutputFileName(curId, curVersion, refId, refVersion))
      == Some((curId, curVersion, refId, refVersion))
  {
    var name := OutputFileName(curId, curVersion, refId, refVersion);
    var stem := curId + "#" + curVersion + "!" + refId + "#" + refVersion;
    assert name == stem + ".xlsx";
    assert name[..|name| - 5] == stem;
    assert stem == curId + ['#'] + (curVersion + "!" + refId + "#" + refVersion);
    SplitAtFirstOf(curId, '#', curVersion + "!" + refId + "#" + refVersion);
    assert curVersion + "!" + refId + "#" + refVersion == curVersion + ['!'] + (refId + "#" + refVersion);
    SplitAtFirstOf(curVersion, '!', refId + "#" + refVersion);
    assert refId + "#" + refVersion == refId + ['#'] + refVersion;
    SplitAtFirstOf(refId, '#', refVersion);
  }

  /** Why no output path could be produced. */
  datatype PathError = MakedirsFailed(path: string)

  /** `posixpath.join(a, b)` for two components. */
  function PathJoin(a: string, b: string): (p: string)
    ensures |p| >= |b| && p[|p| - |b|..] == b
  {
    if |b| > 0 && b[0] == '/' then b
    else if |a| == 0 || a[|a| - 1] == '/' then a + b
    else a + "/" + b
  }

  /** The report path: the bare file name when the directory is ".",
      otherwise the name joined under the directory after `os.makedirs`,
      which rejects the empty path. */
  function OutputPath(outputDir: string, fileName: string): (r: Result<string, PathError>)
    ensures outputDir == "." ==> r == Success(fileName)
    ensures r.Failure? <==> outputDir == ""
    ensures r.Success? ==> |r.value| >= |fileName| && r.value[|r.value| - |fileName|..] == fileName
    ensures r.Success? && outputDir != "." && (|fileName| == 0 || fileName[0] != '/') ==>
      outputDir <= r.value && |r.value| > |fileName|
  {
    if outputDir == "." then Success(fileName)
    else if outputDir == "" then Failure(MakedirsFailed(outputDir))
    else Success(PathJoin(outputDir, fileName))
  }

  /** With a non-empty directory and a relative file name, the path is the
      bare file name exactly when the directory is ".". */
  lemma OutputPathBareIff(outputDir: string, fileName: string)
    requires outputDir != ""
    requires |fileName| == 0 || fileName[0] != '/'
    ensures OutputPath(outputDir, fileName) == Success(fileName) <==> outputDir == "."
  {
  }
}
