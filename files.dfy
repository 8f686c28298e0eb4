/**
 * Where the application puts what it writes: generated audio file names
 * (`safe_filename`) and the per-task metadata file, both built with
 * `os.path.join` on a POSIX system.
 */
module Files {
  import opened Text

  /** Directory for generated audio (app.py line 12). */
  const OutputDir := "output_audio"
  /** Directory for per-task metadata records (app.py line 13). */
  const MetadataDir := "tasks_metadata"
  /** Number of hex digits of the random uuid kept in a file name. */
  const UniqueIdLength := 8

  /** A POSIX path that starts at the root: `p.startswith("/")`. */
  predicate IsAbsolute(p: string) {
    |p| > 0 && p[0] == '/'
  }

  /** `os.path.join(a, b)` on POSIX: an absolute `b` discards `a`; otherwise a
      single `/` is put between the two unless `a` is empty or ends in one. */
  function PathJoin(a: string, b: string): string {
    if IsAbsolute(b) then b
    else if a == "" || EndsWith(a, "/") then a + b
    else a + "/" + b
  }

  /** Python's `s[:n]`, which is all of `s` when it is shorter than `n`. */
  function Take(s: string, n: nat): (r: string)
    ensures |r| <= n && StartsWith(s, r)
    ensures |s| >= n ==> |r| == n
    ensures |s| < n ==> r == s
  {
    if |s| <= n then s else s[..n]
  }

  /** The file name part of `safe_filename`: `f"{prefix}_{timestamp}_{unique_id}.{ext}"`. */
  function FileName(prefix: string, ext: string, timestamp: string, uuidHex: string): string {
    prefix + "_" + timestamp + "_" + Take(uuidHex, UniqueIdLength) + "." + ext
  }

  /** `safe_filename(prefix, ext)`, with the formatted clock reading
      (`%Y%m%d_%H%M%S`) and the uuid's hex digits passed in. The path starts
      with `output_audio/` unless the prefix is an absolute path, which
      `os.path.join` keeps as it is; it always carries the requested
      extension. A relative prefix with `..` still starts with
      `output_audio/` but names a file outside that directory. */
  function SafeFilename(prefix: string, ext: string, timestamp: string, uuidHex: string): (path: string)
    ensures StartsWith(path, OutputDir + "/") <==> !IsAbsolute(prefix)
    ensures EndsWith(path, "." + ext)
    ensures !IsAbsolute(prefix) ==>
              path == OutputDir + "/" + prefix + "_" + timestamp + "_" + Take(uuidHex, UniqueIdLength) + "." + ext
    ensures IsAbsolute(prefix) ==>
              path == prefix + "_" + timestamp + "_" + Take(uuidHex, UniqueIdLength) + "." + ext
  {
    var name := FileName(prefix, ext, timestamp, uuidHex);
    assert IsAbsolute(prefix) <==> IsAbsolute(name);
    var path := PathJoin(OutputDir, name);
    assert path[|path| - |"." + ext|..] == "." + ext;
    assert !IsAbsolute(prefix) ==> path[..|OutputDir + "/"|] == OutputDir + "/";
    assert IsAbsolute(prefix) ==> path[0] == '/';
    path
  }

  /** Joining onto the output directory keeps names of one kind apart. */
  lemma OutputJoinInjective(n1: string, n2: string)
    requires IsAbsolute(n1) <==> IsAbsolute(n2)
    requires PathJoin(OutputDir, n1) == PathJoin(OutputDir, n2)
    ensures n1 == n2
  {
    var lead := if IsAbsolute(n1) then "" else OutputDir + "/";
    assert !EndsWith(OutputDir, "/");
    assert lead + n1 == lead + n2;
    ConcatCancel(lead, n1, lead, n2);
  }

  /** Equal file names from clock readings of one width have equal readings
      and equal kept uuid digits. */
  lemma FileNameDistinct(prefix: string, ext: string, ts1: string, hex1: string, ts2: string, hex2: string)
    requires |ts1| == |ts2|
    requires FileName(prefix, ext, ts1, hex1) == FileName(prefix, ext, ts2, hex2)
    ensures ts1 == ts2 && Take(hex1, UniqueIdLength) == Take(hex2, UniqueIdLength)
  {
    var u1, u2 := Take(hex1, UniqueIdLength), Take(hex2, UniqueIdLength);
    var head, tail := prefix + "_", "." + ext;
    assert FileName(prefix, ext, ts1, hex1) == head + (ts1 + ("_" + u1 + tail));
    assert FileName(prefix, ext, ts2, hex2) == head + (ts2 + ("_" + u2 + tail));
    ConcatCancel(head, ts1 + ("_" + u1 + tail), head, ts2 + ("_" + u2 + tail));
    ConcatCancel(ts1, "_" + u1 + tail, ts2, "_" + u2 + tail);
    ConcatCancel("_" + u1, tail, "_" + u2, tail);
    ConcatCancel("_", u1, "_", u2);
  }

  /** Two files made with the same prefix and extension from clock readings
      of the same width have the same name only if the readings agree and
      the kept uuid digits agree: a new timestamp or a new uuid gives a new
      file. */
  lemma SafeFilenameDistinct(prefix: string, ext: string, ts1: string, hex1: string, ts2: string, hex2: string)
    requires |ts1| == |ts2|
    requires SafeFilename(prefix, ext, ts1, hex1) == SafeFilename(prefix, ext, ts2, hex2)
    ensures ts1 == ts2 && Take(hex1, UniqueIdLength) == Take(hex2, UniqueIdLength)
  {
    var n1, n2 := FileName(prefix, ext, ts1, hex1), FileName(prefix, ext, ts2, hex2);
    assert IsAbsolute(prefix) <==> IsAbsolute(n1);
    assert IsAbsolute(prefix) <==> IsAbsolute(n2);
    OutputJoinInjective(n1, n2);
    FileNameDistinct(prefix, ext, ts1, hex1, ts2, hex2);
  }

  /** Two concatenations that agree and cut at the same place have equal parts. */
  lemma ConcatCancel(x: string, y: string, x': string, y': string)
    requires x + y == x' + y'
    requires |x| == |x'| || |y| == |y'|
    ensures x == x' && y == y'
  {
    assert x == (x + y)[..|x|] && y == (x + y)[|x|..];
    assert x' == (x' + y')[..|x'|] && y' == (x' + y')[|x'|..];
  }

  /** The metadata file's name for a task: `f"{task_id}.json"`. */
  function MetadataFileName(taskId: string): (name: string)
    ensures EndsWith(name, ".json")
    ensures |name| == |taskId| + 5 && name[..|taskId|] == taskId
  {
    taskId + ".json"
  }

  /** `os.path.join(METADATA_DIR, f"{task_id}.json")`, the one path the
      synthesis task writes a record to and the processing and metrics
      endpoints read it back from. It starts with `tasks_metadata/` for a
      relative id; an id with `..` still names a file outside that
      directory. */
  function MetadataPath(taskId: string): (path: string)
    ensures EndsWith(path, ".json")
    ensures !IsAbsolute(taskId) ==> StartsWith(path, MetadataDir + "/")
    ensures !IsAbsolute(taskId) ==> path == MetadataDir + "/" + taskId + ".json"
    ensures IsAbsolute(taskId) ==> path == taskId + ".json"
  {
    var name := MetadataFileName(taskId);
    assert IsAbsolute(taskId) <==> IsAbsolute(name);
    PathJoin(MetadataDir, name)
  }

  /** Distinct task ids never share a metadata file, so the record written
      under one id is never overwritten by a record written under another,
      and a lookup by id finds the record written under that id. */
  lemma MetadataPathInjective(a: string, b: string)
    requires MetadataPath(a) == MetadataPath(b)
    ensures a == b
  {
    var na, nb := MetadataFileName(a), MetadataFileName(b);
    var pa, pb := MetadataPath(a), MetadataPath(b);
    var lead := MetadataDir + "/";
    assert IsAbsolute(a) <==> IsAbsolute(na);
    assert IsAbsolute(b) <==> IsAbsolute(nb);
    // an absolute name gives a path starting with '/', a relative one a path
    // starting with the directory's 't'; so both ids are of the same kind
    assert pa == if IsAbsolute(a) then na else lead + na;
    assert pb == if IsAbsolute(b) then nb else lead + nb;
    assert IsAbsolute(a) <==> pa[0] == '/';
    assert IsAbsolute(b) <==> pb[0] == '/';
    if IsAbsolute(a) {
      assert a == na[..|na| - 5] && b == nb[..|nb| - 5];
    } else {
      assert na == pa[|lead|..] && nb == pb[|lead|..];
      assert a == na[..|na| - 5] && b == nb[..|nb| - 5];
    }
  }
}
