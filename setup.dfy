/**
 * The pre-run part of the downloader: choosing the download script from the
 * image type, turning the list-file argument into an absolute path, and
 * refusing a run whose list holds no image id. File-system checks (the script
 * exists, the list opens, the download directory exists) are I/O and are
 * taken as given.
 */
module Setup {
  import opened Wrappers
  import ImageList

  /** The image types the downloader accepts. */
  const ImageTypes: set<string> := {"ctx", "hirise_edr", "hirise_rdr"}

  /** The script that downloads images of type `imageType`, or None if the type is unknown. */
  function ScriptFor(imageType: string, currDir: string): (r: Option<string>)
    ensures r.Some? <==> imageType in ImageTypes
    ensures r.Some? ==> r.value == currDir + "/code/download_" + imageType + ".s"
  {
    if imageType == "ctx" then
      Some(currDir + "/code/download_ctx.s")
    else if imageType == "hirise_edr" then
      Some(currDir + "/code/download_hirise_edr.s")
    else if imageType == "hirise_rdr" then
      Some(currDir + "/code/download_hirise_rdr.s")
    else
      None
  }

  /** Two different image types never share a script. */
  lemma ScriptsDistinct(t1: string, t2: string, currDir: string)
    requires t1 in ImageTypes && t2 in ImageTypes && t1 != t2
    ensures ScriptFor(t1, currDir).value != ScriptFor(t2, currDir).value
  {
    var s1, s2 := ScriptFor(t1, currDir).value, ScriptFor(t2, currDir).value;
    if |s1| == |s2| {
      // only hirise_edr and hirise_rdr have equal lengths; they differ after "hirise_"
      var k := |currDir| + |"/code/download_hirise_"|;
      assert s1[k] != s2[k];
    }
  }

  predicate IsAbsolute(path: string) {
    |path| > 0 && path[0] == '/'
  }

  /**
   * The list file as an absolute path: an absolute argument is kept, a relative
   * one is resolved against the working directory. An empty argument reads its
   * terminating NUL as first character, so it counts as relative.
   */
  function ListPath(currDir: string, path: string): (r: string)
    ensures r == path <==> IsAbsolute(path)
    ensures |r| >= |path| && r[|r| - |path|..] == path
    ensures IsAbsolute(currDir) ==> IsAbsolute(r)
  {
    if IsAbsolute(path) then path else currDir + "/" + path
  }

  /** Resolving an already resolved path changes nothing (the working directory is absolute). */
  lemma ListPathIdempotent(currDir: string, path: string)
    requires IsAbsolute(currDir)
    ensures ListPath(currDir, ListPath(currDir, path)) == ListPath(currDir, path)
  {
  }

  /** Why the downloader stops before launching anything. */
  datatype SetupError = InvalidImageType | NoImageIds

  /** What a run needs: the script, the resolved list file and the cleaned ids. */
  datatype Plan = Plan(script: string, listFile: string, ids: seq<string>)

  /**
   * The checks `main` makes before the dispatcher starts, in their order:
   * the image type first, then the list contents. `lines` are the lines read
   * from the list file.
   */
  function Prepare(imageType: string, listArg: string, currDir: string, lines: seq<string>): (r: Result<Plan, SetupError>)
    ensures r == Err(InvalidImageType) <==> imageType !in ImageTypes
    ensures r == Err(NoImageIds) <==>
              imageType in ImageTypes && forall i | 0 <= i < |lines| :: ImageList.Strip(lines[i]) == []
    ensures r.Ok? ==> r.value.ids != [] && r.value.ids == ImageList.CleanIds(lines)
                      && r.value.listFile == ListPath(currDir, listArg)
                      && r.value.script == currDir + "/code/download_" + imageType + ".s"
  {
    match ScriptFor(imageType, currDir)
    case None => Err(InvalidImageType)
    case Some(script) =>
      var ids := ImageList.CleanIds(lines);
      ImageList.CleanIdsEmpty(lines);
      if ids == [] then Err(NoImageIds) else Ok(Plan(script, ListPath(currDir, listArg), ids))
  }
}
