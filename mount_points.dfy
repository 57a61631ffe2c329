/**
  What both variants share about local mount points: the last segment of a
  remote export path, the directory built from it under `/Volumes`, and the
  choice of the first candidate directory that does not exist yet.
 */
module MountPoints {
  import opened Wrappers
  import opened RubyText

  /** `Mount::MOUNT_POINT_ROOT`. */
  const MountPointRoot: string := "/Volumes"

  /** `path.split('/').last`: the last non-empty `/`-separated piece of `path`,
      `None` when `path` is made of slashes only or is empty. */
  function LastSegment(path: string): (r: Option<string>)
    ensures r.Some? ==> r.value != [] && '/' !in r.value
    ensures r.None? <==> forall i :: 0 <= i < |path| ==> path[i] == '/'
  {
    var pieces := Split(path, '/');
    SplitPieces(path, '/');
    OnlySeparators(path, '/');
    if pieces == [] then None else Some(pieces[|pieces| - 1])
  }

  /** A segment with trailing slashes, and no directory in front, is its own last segment. */
  lemma {:induction false} LastSegmentBare(name: string, slashes: nat)
    requires name != [] && '/' !in name
    ensures LastSegment(name + Repeat('/', slashes)) == Some(name)
  {
    SplitAllTrailing(name, '/', slashes);
    DropTrailingEmptyOf([name], slashes);
  }

  /** The paths `mount_point` can be computed for without raising. */
  predicate HasLastSegment(path: string) {
    LastSegment(path).Some?
  }

  /** The last segment of `dir/name`, trailing slashes or not, is `name`. */
  lemma {:induction false} LastSegmentOf(dir: string, name: string, slashes: nat)
    requires name != [] && '/' !in name
    ensures LastSegment(dir + "/" + name + Repeat('/', slashes)) == Some(name)
  {
    var s := dir + "/" + name + Repeat('/', slashes);
    assert s == dir + ['/'] + (name + Repeat('/', slashes));
    SplitAllAppend(dir, name + Repeat('/', slashes), '/');
    SplitAllTrailing(name, '/', slashes);
    var a := SplitAll(dir, '/') + [name];
    assert SplitAll(s, '/') == a + Repeat([], slashes);
    DropTrailingEmptyOf(a, slashes);
  }

  /** `Pathname.new(MOUNT_POINT_ROOT) + segment` for one path segment:
      `.` stays in the root and `..` climbs to `/`. */
  function BasePoint(segment: string): (r: string)
    ensures r != [] && r[0] == '/'
    ensures segment != [] && '/' !in segment && segment != "." && segment != ".." ==>
              MountPointRoot + "/" <= r && LastSegment(r) == Some(segment)
  {
    if segment == "." then MountPointRoot
    else if segment == ".." then "/"
    else
      var r := MountPointRoot + "/" + segment;
      if segment != [] && '/' !in segment then
        LastSegmentOf(MountPointRoot, segment, 0);
        assert r + Repeat('/', 0) == r;
        r
      else r
  }

  /** The directory `mount_point` starts from for a remote `path`: the root joined with the path's last segment. */
  function BaseMountPoint(path: string): (r: string)
    requires HasLastSegment(path)
    ensures r != [] && r[0] == '/'
    ensures LastSegment(path).value != "." && LastSegment(path).value != ".." ==>
              MountPointRoot + "/" <= r && LastSegment(r) == LastSegment(path)
  {
    BasePoint(LastSegment(path).value)
  }

  /** For `dir/name` with an ordinary last segment `name`, the base is `/Volumes/name`. */
  lemma {:induction false} BaseMountPointOf(dir: string, name: string, slashes: nat)
    requires name != [] && '/' !in name && name != "." && name != ".."
    ensures HasLastSegment(dir + "/" + name + Repeat('/', slashes))
    ensures BaseMountPoint(dir + "/" + name + Repeat('/', slashes)) == MountPointRoot + "/" + name
  {
    LastSegmentOf(dir, name, slashes);
  }

  /** The index of the first candidate missing from `fs`; `|probes|` when every one exists. */
  function FirstAbsent(probes: seq<string>, fs: set<string>): (j: nat)
    ensures j <= |probes|
    ensures forall i :: 0 <= i < j ==> probes[i] in fs
    ensures j < |probes| ==> probes[j] !in fs
  {
    if probes == [] || probes[0] !in fs then 0 else 1 + FirstAbsent(probes[1..], fs)
  }

  /** The first of `probes` that does not exist in `fs`, or `None` when all of them do. */
  function FirstFree(probes: seq<string>, fs: set<string>): (r: Option<string>)
    ensures r.Some? ==> r.value in probes && r.value !in fs
    ensures r.None? <==> forall i :: 0 <= i < |probes| ==> probes[i] in fs
  {
    var j := FirstAbsent(probes, fs);
    if j < |probes| then Some(probes[j]) else None
  }

  /** The candidate picked is the one at the first index where the probes stop colliding. */
  lemma {:induction false} FirstFreeAt(probes: seq<string>, fs: set<string>, j: nat)
    requires j < |probes| && probes[j] !in fs
    requires forall i :: 0 <= i < j ==> probes[i] in fs
    ensures FirstFree(probes, fs) == Some(probes[j])
  {
  }
}
