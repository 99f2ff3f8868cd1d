/**
 * Temporary paths of the two pipelines (src/handlers/videos.py) and the part
 * of the file system they touch, as the set of paths that exist.
 *
 * `uuid4().hex` is an oracle: the pipelines receive the hex as a parameter,
 * and freshness is what distinct hexes give.
 */
module Files {
  type Path = string

  /** `f"media/{filename}.mp4"`: where the uploaded video is downloaded. */
  function InputPath(hex: string): Path {
    "media/" + hex + ".mp4"
  }

  /** `f"media/{filename}.rescaled.mkv"`: where the transformed video is written. */
  function OutputPath(hex: string): Path {
    "media/" + hex + ".rescaled.mkv"
  }

  /** The two paths one pipeline call owns. */
  function TempPaths(hex: string): set<Path> {
    {InputPath(hex), OutputPath(hex)}
  }

  /** The name between the directory and the suffix. */
  lemma InputPathDeterminesHex(hex: string)
    ensures |InputPath(hex)| == |hex| + 10
    ensures InputPath(hex)[6..|InputPath(hex)| - 4] == hex
  {
  }

  lemma OutputPathDeterminesHex(hex: string)
    ensures |OutputPath(hex)| == |hex| + 19
    ensures OutputPath(hex)[6..|OutputPath(hex)| - 13] == hex
  {
  }

  /** An input path is never an output path: the last characters differ. */
  lemma InputIsNotOutput(hex1: string, hex2: string)
    ensures InputPath(hex1) != OutputPath(hex2)
  {
    var a, b := InputPath(hex1), OutputPath(hex2);
    assert a[|a| - 1] == '4';
    assert b[|b| - 1] == 'v';
  }

  /**
   * The two paths of one call are distinct, and calls with different hexes
   * share no path.
   */
  lemma TempPathsDisjoint(hex1: string, hex2: string)
    ensures InputPath(hex1) != OutputPath(hex1)
    ensures hex1 != hex2 ==> TempPaths(hex1) !! TempPaths(hex2)
  {
    InputIsNotOutput(hex1, hex1);
    InputIsNotOutput(hex1, hex2);
    InputIsNotOutput(hex2, hex1);
    InputPathDeterminesHex(hex1);
    InputPathDeterminesHex(hex2);
    OutputPathDeterminesHex(hex1);
    OutputPathDeterminesHex(hex2);
  }

  /** Any number of calls with pairwise distinct hexes own pairwise disjoint paths. */
  lemma ConcurrentCallsDisjoint(hexes: seq<string>)
    requires forall i, j :: 0 <= i < j < |hexes| ==> hexes[i] != hexes[j]
    ensures forall i, j :: 0 <= i < |hexes| && 0 <= j < |hexes| && i != j ==> TempPaths(hexes[i]) !! TempPaths(hexes[j])
  {
    forall i, j | 0 <= i < |hexes| && 0 <= j < |hexes| && i != j
      ensures TempPaths(hexes[i]) !! TempPaths(hexes[j])
    {
      TempPathsDisjoint(hexes[i], hexes[j]);
    }
  }

  /** The paths that exist. */
  class FileSystem {
    var files: set<Path>

    constructor (initial: set<Path>)
      ensures files == initial
    {
      files := initial;
    }

    /** Creates (or truncates) a file. */
    method Create(p: Path)
      modifies this
      ensures files == old(files) + {p}
    {
      files := files + {p};
    }

    /** `os.remove`: deletes the file, or reports (`removed` false) the `FileNotFoundError` it raises. */
    method Remove(p: Path) returns (removed: bool)
      modifies this
      ensures removed == (p in old(files))
      ensures files == old(files) - {p}
    {
      removed := p in files;
      files := files - {p};
    }

    /** `open(p, "rb")`: succeeds exactly when the file exists; changes nothing. */
    method Exists(p: Path) returns (found: bool)
      ensures found == (p in files)
    {
      found := p in files;
    }
  }
}
