/** The update check: the local MACLIST file is compared with the remote copy by
    line count, and replaced by the remote copy when that has more lines. */
module HaraldUpdate {

  /** The local MACLIST file, as the lines reading it yields. */
  class MacListFile {
    var lines: seq<string>

    constructor (lines: seq<string>)
      ensures this.lines == lines
    {
      this.lines := lines;
    }
  }

  /** The counting loop `for line in f: n += 1`. */
  method CountLines(lines: seq<string>) returns (n: nat)
    ensures n == |lines|
  {
    n := 0;
    for i := 0 to |lines|
      invariant n == i
    {
      n := n + 1;
    }
  }

  /** `check_now`, with the remote file's lines passed in. It counts the local
      lines (`llines`) and the remote lines (`rlines`); only when `rlines > llines`
      is the local file replaced by the download and True returned. */
  method CheckNow(local: MacListFile, remote: seq<string>) returns (updated: bool)
    modifies local
    ensures updated <==> |remote| > |old(local.lines)|
    ensures local.lines == if updated then remote else old(local.lines)
  {
    var llines := CountLines(local.lines);
    var rlines := CountLines(remote);
    if rlines > llines {
      local.lines := remote;
      return true;
    }
    return false;
  }

  /** A second check against the same remote file finds nothing to do: after the
      first, the local file is at least as long as the remote one. */
  method CheckTwice(local: MacListFile, remote: seq<string>) returns (first: bool, second: bool)
    modifies local
    ensures first <==> |remote| > |old(local.lines)|
    ensures !second
    ensures local.lines == if first then remote else old(local.lines)
  {
    first := CheckNow(local, remote);
    second := CheckNow(local, remote);
  }
}
