/**
 * `main` once its arguments are counted: choose the script, resolve the list
 * file, read the ids, then dispatch. `lines` stands for the contents of the
 * list file and `answers` for what `fork` and `wait` return.
 */
module Downloader {
  import opened Wrappers
  import Setup
  import ImageList
  import PoolMachine
  import Dispatcher

  /**
   * The exit code of `main`, or None while the dispatcher still waits for
   * the result of `fork` or `wait`. The file-system checks come in as their outcomes: whether `stat`
   * found the script, whether the list file opened, and whether the download
   * directory exists or was created.
   */
  method Download(imageType: string, listArg: string, currDir: string,
                  scriptFound: bool, listOpened: bool, lines: seq<string>, dirReady: bool,
                  answers: seq<int>)
    returns (code: Option<int>)
    ensures var plan := Setup.Prepare(imageType, listArg, currDir, lines);
            code == if plan.Ok? && scriptFound && listOpened && dirReady
                    then PoolMachine.ExitCode(PoolMachine.Run(PoolMachine.Start(|plan.value.ids|), answers))
                    else Some(1)
  {
    var script := Setup.ScriptFor(imageType, currDir);
    if script.None? || !scriptFound {
      return Some(1);
    }
    var listFile := Setup.ListPath(currDir, listArg);  // the file that is opened
    if !listOpened {
      return Some(1);
    }
    var ids := ImageList.ReadIds(lines);
    if ids == [] || !dirReady {
      return Some(1);
    }
    var m := Dispatcher.Dispatch(|ids|, answers);
    code := PoolMachine.ExitCode(m);
  }

  /**
   * With a valid setup, file-system checks that succeed and an operating
   * system that never fails a fork and reports each child once, the code
   * `Download` returns is 0, after one fork and one wait per id: every id was
   * launched once, in list order, and completed exactly once.
   */
  lemma CooperativeDownload(imageType: string, listArg: string, currDir: string, lines: seq<string>, answers: seq<int>)
    requires Setup.Prepare(imageType, listArg, currDir, lines).Ok?
    requires PoolMachine.Cooperative(PoolMachine.Start(|ImageList.CleanIds(lines)|), answers)
    requires |answers| == 2 * |ImageList.CleanIds(lines)|
    ensures var n := |Setup.Prepare(imageType, listArg, currDir, lines).value.ids|;
            var m := PoolMachine.Run(PoolMachine.Start(n), answers);
            && PoolMachine.ExitCode(m) == Some(0)
            && m.pool.started == PoolMachine.Iota(n)
            && |m.pool.reaped| == n
            && (forall i, j | 0 <= i < j < n :: m.pool.reaped[i] != m.pool.reaped[j])
            && (forall i: nat | i < n :: i in m.pool.reaped)
  {
    var n := |ImageList.CleanIds(lines)|;
    PoolMachine.CooperativeRun(n, answers);
    PoolMachine.NormalExit(n, answers);
  }
}
