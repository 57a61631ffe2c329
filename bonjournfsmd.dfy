/**
  `bonjournfsmd.rb` (version 0.8): the Mount record, whose equality ignores
  the port but compares server and path exactly; its memoised mount-point
  allocator, which tries `/Volumes/<name>` and then `/Volumes/<name>1` up to
  `49`; the reader of `mount -t nfs` output; one reconcile step of the resolve
  callback; and the main loop's counter, which re-reads the mount table on
  every fourth tick only.
  The filesystem is the set of paths that exist; the shell commands are an
  input string and a success flag.
 */
module BonjourNfsmd {
  import opened Wrappers
  import opened RubyText
  import opened MountPoints
  import opened MountTable

  /** `Mount::UNKNOWN_PORT`, the port of every mount read from the mount table. */
  const UnknownPort: int := -1

  /** How many directories `mount_point` tries before giving up. */
  const ProbeCount: nat := 50

  /** `SKIP_MOUNT_RETRIEVAL_COUNT`: the mount table is read once every this many ticks. */
  const SkipMountRetrievalCount: int := 4

  // ---------------------------------------------------------------------------
  // The Mount record

  /** `server.chomp('.')`: one trailing dot goes; a `.local` suffix stays. */
  function NormalizeServer(name: string): (r: string)
    ensures name == r || name == r + "."
    ensures EndsWith(name, ".") <==> name == r + "."
  {
    Chomp(name, ".")
  }

  /** `name.` loses its dot, and only that one. */
  lemma {:induction false} NormalizeDot(x: string)
    ensures NormalizeServer(x + ".") == x
  {
    ChompOf(x, ".");
  }

  /** `name.local` is kept as it is. */
  lemma {:induction false} NormalizeKeepsLocal(x: string)
    ensures NormalizeServer(x + ".local") == x + ".local"
  {
    var s := x + ".local";
    assert s[|s| - 1] == 'l';
    assert s[|s| - 1..] == "l";
  }

  /** The directory tried after `k` collisions: `base` followed by the digits of `k`. */
  function Numbered(base: string, k: nat): string {
    base + Decimal(k)
  }

  /** Probe `k` is `base` followed by digits spelling `k`. */
  lemma {:induction false} NumberedDigits(base: string, k: nat)
    ensures var r := Numbered(base, k);
              |r| == |base| + |Decimal(k)| && r[..|base|] == base && DecimalValue(r[|base|..]) == k
  {
    var r := Numbered(base, k);
    assert r[|base|..] == Decimal(k);
  }

  /** The directories `mount_point` tries, in order: `base`, `base1`, ..., `base49`. */
  function Probes(base: string): (ps: seq<string>)
    ensures |ps| == ProbeCount && ps[0] == base
    ensures forall k :: 1 <= k < ProbeCount ==> ps[k] == Numbered(base, k)
  {
    seq(ProbeCount, k requires 0 <= k => if k == 0 then base else Numbered(base, k))
  }

  /** What a first call of `mount_point` yields for a remote `path` when the paths in `fs` exist. */
  function Allocate(path: string, fs: set<string>): (r: Option<string>)
    requires HasLastSegment(path)
    ensures r.Some? ==> r.value !in fs
    ensures r.Some? ==>
              r.value == BaseMountPoint(path) ||
              exists k :: 1 <= k < ProbeCount && r.value == Numbered(BaseMountPoint(path), k)
  {
    var ps := Probes(BaseMountPoint(path));
    var j := FirstAbsent(ps, fs);
    assert j < |ps| ==> j == 0 || ps[j] == Numbered(BaseMountPoint(path), j);
    FirstFree(ps, fs)
  }

  /** A free base directory is taken as it is. */
  lemma {:induction false} AllocateBase(path: string, fs: set<string>)
    requires HasLastSegment(path) && BaseMountPoint(path) !in fs
    ensures Allocate(path, fs) == Some(BaseMountPoint(path))
  {
    FirstFreeAt(Probes(BaseMountPoint(path)), fs, 0);
  }

  /** When `base` and `base1` to `base(k-1)` exist but `basek` does not, `basek` is taken. */
  lemma {:induction false} AllocateNumbered(path: string, fs: set<string>, k: nat)
    requires HasLastSegment(path) && 1 <= k < ProbeCount
    requires BaseMountPoint(path) in fs
    requires forall j :: 1 <= j < k ==> Numbered(BaseMountPoint(path), j) in fs
    requires Numbered(BaseMountPoint(path), k) !in fs
    ensures Allocate(path, fs) == Some(Numbered(BaseMountPoint(path), k))
  {
    var ps := Probes(BaseMountPoint(path));
    assert forall j :: 0 <= j < k ==> ps[j] in fs by {
      forall j | 0 <= j < k ensures ps[j] in fs {
        if j > 0 { assert ps[j] == Numbered(BaseMountPoint(path), j); }
      }
    }
    FirstFreeAt(ps, fs, k);
  }

  /** Allocation fails exactly when `base` and `base1` to `base49` all exist. */
  lemma {:induction false} AllocateExhausted(path: string, fs: set<string>)
    requires HasLastSegment(path)
    ensures Allocate(path, fs).None? <==>
              BaseMountPoint(path) in fs && forall k :: 1 <= k < ProbeCount ==> Numbered(BaseMountPoint(path), k) in fs
  {
    var base := BaseMountPoint(path);
    var ps := Probes(base);
    if base in fs && forall k :: 1 <= k < ProbeCount ==> Numbered(base, k) in fs {
      assert forall i :: 0 <= i < |ps| ==> ps[i] in fs by {
        forall i | 0 <= i < |ps| ensures ps[i] in fs {
          if i > 0 { assert ps[i] == Numbered(base, i); }
        }
      }
    }
    if Allocate(path, fs).None? {
      assert ps[0] in fs;
      assert forall k :: 1 <= k < ProbeCount ==> ps[k] in fs;
    }
  }

  /** `base50`, built just before the loop gives up, is never handed out. */
  lemma {:induction false} AllocateNeverFiftieth(path: string, fs: set<string>)
    requires HasLastSegment(path)
    ensures Allocate(path, fs) != Some(Numbered(BaseMountPoint(path), ProbeCount))
  {
    var base := BaseMountPoint(path);
    var ps := Probes(base);
    var last := Numbered(base, ProbeCount);
    assert |last| > |base|;
    forall k | 0 <= k < ProbeCount ensures ps[k] != last {
      if k > 0 {
        assert ps[k] == Numbered(base, k);
        NumberedDigits(base, k);
        NumberedDigits(base, ProbeCount);
      }
    }
  }

  /** A name ending in a digit is neither `.` nor `..`. */
  lemma {:induction false} DigitEndNotDots(s: string)
    requires s != [] && '0' <= s[|s| - 1] <= '9'
    ensures s != "." && s != ".."
  {
    assert "."[0] == '.' && ".."[1] == '.';
  }

  /** With no separator before the number, the `k`-th probe for segment `name` is the
      base directory of segment `name` followed by `k`: two exports can compete for it. */
  lemma {:induction false} NumberedIsBase(name: string, k: nat)
    requires name != [] && name != "." && name != ".."
    ensures Numbered(BasePoint(name), k) == BasePoint(name + Decimal(k))
  {
    var d := Decimal(k);
    var s := name + d;
    assert s[|s| - 1] == d[|d| - 1];
    DigitEndNotDots(s);
    assert BasePoint(s) == MountPointRoot + "/" + s;
    assert BasePoint(name) == MountPointRoot + "/" + name;
    assert (MountPointRoot + "/" + name) + d == MountPointRoot + "/" + s;
  }

  /** A remote export, observed in the mount table or discovered; `memo` caches its mount point. */
  class Mount {
    const server: string
    const port: int
    const path: Option<string>
    var memo: Option<string>

    /** `Mount.new(server, port, path)`. */
    constructor (server: string, port: int, path: Option<string>)
      ensures this.server == NormalizeServer(server) && this.port == port && this.path == path
      ensures memo == None
    {
      this.server := NormalizeServer(server);
      this.port := port;
      this.path := path;
      memo := None;
    }

    /** `mount_point`: the cached directory when there is one; otherwise the first of
        `Probes` missing from `fs`, which is then cached. Exhaustion leaves the cache empty.
        A nil path or one without a last segment raises in Ruby and is excluded. */
    method MountPoint(fs: set<string>) returns (r: Option<string>)
      requires memo.Some? || (path.Some? && HasLastSegment(path.value))
      modifies this
      ensures old(memo).Some? ==> r == old(memo) && memo == old(memo)
      ensures old(memo).None? ==> r == Allocate(path.value, fs) && memo == r
    {
      if memo.None? {
        var base := BaseMountPoint(path.value);
        ghost var probes := Probes(base);
        var i := 1;
        var candidate := base;
        while candidate in fs
          invariant 1 <= i <= ProbeCount
          invariant candidate == probes[i - 1]
          invariant i - 1 <= FirstAbsent(probes, fs)
          decreases ProbeCount - i
        {
          candidate := Numbered(base, i);
          i := i + 1;
          if i > ProbeCount {
            assert FirstFree(probes, fs) == None;
            return None;
          }
        }
        assert FirstAbsent(probes, fs) == i - 1;
        assert FirstFree(probes, fs) == Some(candidate);
        memo := Some(candidate);
      }
      r := memo;
    }
  }

  // ---------------------------------------------------------------------------
  // Equality

  /** `Mount#==`: the same server and the same path, compared exactly (nil equals nil); ports are not compared. */
  predicate SameExport(a: Mount, b: Mount)
    ensures SameExport(a, b) <==> EntryOf(a).(port := b.port) == EntryOf(b)
  {
    a.server == b.server && a.path == b.path
  }

  /** `active.include?(candidate)`: some entry equals the candidate. Never raises. */
  function Includes(active: seq<Mount>, cand: Mount): (r: bool)
    ensures r <==> exists k :: 0 <= k < |active| && SameExport(active[k], cand)
  {
    if active == [] then false
    else if SameExport(active[0], cand) then true
    else
      var rest := Includes(active[1..], cand);
      assert forall k :: 1 <= k < |active| ==> active[k] == active[1..][k - 1];
      rest
  }

  /** Once a mount is appended after a negative check, any equal candidate finds it. */
  lemma {:induction false} NoDoubleMount(active: seq<Mount>, m: Mount, c: Mount)
    requires !Includes(active, m)
    requires SameExport(m, c)
    ensures Includes(active + [m], c)
  {
    assert (active + [m])[|active|] == m;
  }

  // ---------------------------------------------------------------------------
  // Reading the mount table

  function EntryOf(m: Mount): Entry {
    Entry(m.server, m.port, m.path)
  }

  function EntriesOf(ms: seq<Mount>): (es: seq<Entry>)
    ensures |es| == |ms| && forall i :: 0 <= i < |ms| ==> es[i] == EntryOf(ms[i])
  {
    seq(|ms|, i requires 0 <= i < |ms| => EntryOf(ms[i]))
  }

  lemma {:induction false} EntriesOfAppend(ms: seq<Mount>, ns: seq<Mount>)
    ensures EntriesOf(ms + ns) == EntriesOf(ms) + EntriesOf(ns)
  {
    assert forall i :: 0 <= i < |ns| ==> (ms + ns)[|ms| + i] == ns[i];
  }

  /** Why `get_active_mounts` raises: a first field made of colons, whose nil server `Mount.new` cannot chomp. */
  datatype TableError = MissingServer(line: string)

  function ReadLines(lines: seq<string>): (ts: seq<RawLine>)
    ensures |ts| == |lines|
  {
    if lines == [] then [] else [RawFields(lines[0])] + ReadLines(lines[1..])
  }

  /** Line `i` is read on its own. */
  lemma {:induction false} ReadLinesAt(lines: seq<string>, i: nat)
    requires i < |lines|
    ensures ReadLines(lines)[i] == RawFields(lines[i])
  {
    if i > 0 {
      ReadLinesAt(lines[1..], i - 1);
    }
  }

  /** The Mount fields one line gives: none for a blank line, else one. */
  function LineEntries(t: RawLine): seq<Entry> {
    match t
    case Fields(server, path) => [Entry(NormalizeServer(server), UnknownPort, path)]
    case _ => []
  }

  /** The Mount fields of every line, in order. */
  function Entries(ts: seq<RawLine>): seq<Entry> {
    if ts == [] then [] else Entries(ts[..|ts| - 1]) + LineEntries(ts[|ts| - 1])
  }

  /** Every line gives at most one entry, and each entry has the unknown port. */
  lemma {:induction false} EntriesBound(ts: seq<RawLine>)
    ensures |Entries(ts)| <= |ts|
    ensures forall i :: 0 <= i < |Entries(ts)| ==> Entries(ts)[i].port == UnknownPort
  {
    if ts != [] {
      EntriesBound(ts[..|ts| - 1]);
    }
  }

  /** One more line adds its own entries. */
  lemma {:induction false} EntriesStep(ts: seq<RawLine>, i: nat)
    requires i < |ts|
    ensures Entries(ts[..i + 1]) == Entries(ts[..i]) + LineEntries(ts[i])
  {
    assert ts[..i + 1][..i] == ts[..i];
  }

  /** The index of the first line with a nil server, `|ts|` when there is none. */
  function FirstBad(ts: seq<RawLine>): (k: nat)
    ensures k <= |ts|
    ensures forall i :: 0 <= i < k ==> !ts[i].NoServer?
    ensures k < |ts| ==> ts[k].NoServer?
  {
    if ts == [] || ts[0].NoServer? then 0 else 1 + FirstBad(ts[1..])
  }

  /** A good line at `k`, with none bad before it, moves the first bad line past `k`. */
  lemma {:induction false} FirstBadPast(ts: seq<RawLine>, k: nat)
    requires k < |ts| && k <= FirstBad(ts) && !ts[k].NoServer?
    ensures k + 1 <= FirstBad(ts)
  {
  }

  /** What `get_active_mounts` returns for the given output lines, or why it raises. */
  function ParseTable(lines: seq<string>): (r: Result<seq<Entry>, TableError>)
    ensures r.Ok? ==> |r.value| <= |lines| && forall i :: 0 <= i < |r.value| ==> r.value[i].port == UnknownPort
    ensures r.Err? ==> exists k :: 0 <= k < |lines| && r.error == MissingServer(lines[k])
  {
    var ts := ReadLines(lines);
    EntriesBound(ts);
    var k := FirstBad(ts);
    if k < |ts| then Err(MissingServer(lines[k])) else Ok(Entries(ts))
  }

  /** With no bad line among the first `k`, the first bad one is `k` when line `k` is bad. */
  lemma {:induction false} ParseTableAt(lines: seq<string>, k: nat)
    requires k < |lines| && ReadLines(lines)[k].NoServer?
    requires k <= FirstBad(ReadLines(lines))
    ensures ParseTable(lines) == Err(MissingServer(lines[k]))
  {
    var j := FirstBad(ReadLines(lines));
    assert j == k;
  }

  /** Parsing succeeds exactly when no line has a first field made of colons only. */
  lemma {:induction false} ParseTableOk(lines: seq<string>)
    ensures ParseTable(lines).Ok? <==> forall i :: 0 <= i < |lines| ==> !RawFields(lines[i]).NoServer?
  {
    var ts := ReadLines(lines);
    forall i | 0 <= i < |lines|
      ensures ts[i].NoServer? <==> RawFields(lines[i]).NoServer?
    {
      ReadLinesAt(lines, i);
    }
  }

  /** With fields on every line, entry `k` is built from line `k`. */
  lemma {:induction false} EntriesPointwise(ts: seq<RawLine>)
    requires forall i :: 0 <= i < |ts| ==> ts[i].Fields?
    ensures |Entries(ts)| == |ts|
    ensures forall k :: 0 <= k < |ts| ==>
              Entries(ts)[k] == Entry(NormalizeServer(ts[k].server), UnknownPort, ts[k].path)
  {
    if ts != [] {
      var init := ts[..|ts| - 1];
      EntriesPointwise(init);
      assert Entries(ts) == Entries(init) + LineEntries(ts[|ts| - 1]);
    }
  }

  /** A single line `server:path` followed by more fields reads as one entry with the
      normalised server, that path and an unknown port. */
  lemma {:induction false} ParseOneLine(lead: string, server: string, path: string, more: string, tail: string)
    requires forall i :: 0 <= i < |lead| ==> IsSpace(lead[i])
    requires ':' !in server && ':' !in path && path != []
    requires more == [] || more[0] == ':'
    requires forall i :: 0 <= i < |server| ==> !IsSpace(server[i])
    requires forall i :: 0 <= i < |path| ==> !IsSpace(path[i])
    requires forall i :: 0 <= i < |more| ==> !IsSpace(more[i])
    requires tail == [] || IsSpace(tail[0])
    ensures ParseTable([lead + server + ":" + path + more + tail]) ==
              Ok([Entry(NormalizeServer(server), UnknownPort, Some(path))])
  {
    var line := lead + server + ":" + path + more + tail;
    RawFieldsOf(lead, server, path, more, tail);
    var single: seq<string> := [line];
    assert single[1..] == [];
    var ts := ReadLines(single);
    assert ts == [Fields(server, Some(path))];
    assert ts[1..] == [];
    assert FirstBad(ts) == 1;
    assert Entries(ts) == Entries([]) + LineEntries(ts[0]);
    assert Entries(ts) == [Entry(NormalizeServer(server), UnknownPort, Some(path))];
  }

  // ---------------------------------------------------------------------------
  // The mounter

  /** `Mount.new(server, UNKNOWN_PORT, path)` for a line with fields; nothing for a blank line. */
  method NewMounts(t: RawLine) returns (ms: seq<Mount>)
    requires !t.NoServer?
    ensures EntriesOf(ms) == LineEntries(t)
    ensures forall m :: m in ms ==> fresh(m) && m.memo.None?
  {
    match t
    case Fields(server, path) =>
      var m := new Mount(server, UnknownPort, path);
      ms := [m];
    case NoField =>
      ms := [];
  }

  /** How one resolved service is handled. */
  datatype Outcome =
    | AlreadyActive              // an equal mount is active: nothing is done
    | PointRaised                // `mount_point` raised: the path has no last segment
    | NoMountPoint               // every probed directory exists
    | Mounted(point: string)     // directory created and `mount` succeeded
    | MountFailed(point: string) // `mount` failed and the directory was removed again

  /** `BonjourNFSMounter`: the list of active mounts. */
  class Mounter {
    var active: seq<Mount>

    constructor ()
      ensures active == []
    {
      active := [];
    }

    /** `get_active_mounts` on the output of `mount -t nfs`. */
    method GetActiveMounts(output: string) returns (r: Result<seq<Mount>, TableError>)
      ensures ParseTable(Lines(output)).Err? ==> r == Err(ParseTable(Lines(output)).error)
      ensures ParseTable(Lines(output)).Ok? ==> r.Ok? && EntriesOf(r.value) == ParseTable(Lines(output)).value
      ensures r.Ok? ==> forall m :: m in r.value ==> fresh(m) && m.memo.None?
    {
      var lines := Lines(output);
      ghost var ts := ReadLines(lines);
      var mounts: seq<Mount> := [];
      for i := 0 to |lines|
        invariant i <= FirstBad(ts)
        invariant EntriesOf(mounts) == Entries(ts[..i])
        invariant forall m :: m in mounts ==> fresh(m) && m.memo.None?
      {
        var t := RawFields(lines[i]);
        ReadLinesAt(lines, i);
        if t.NoServer? {
          ParseTableAt(lines, i);
          return Err(MissingServer(lines[i]));
        }
        FirstBadPast(ts, i);
        EntriesStep(ts, i);
        var ms := NewMounts(t);
        EntriesOfAppend(mounts, ms);
        mounts := mounts + ms;
      }
      assert ts[..|ts|] == ts;
      r := Ok(mounts);
    }

    /** `@active_mounts = get_active_mounts`: replaced wholesale, or left alone when the read raises. */
    method Refresh(output: string) returns (err: Option<TableError>)
      modifies this
      ensures ParseTable(Lines(output)).Err? ==> err == Some(ParseTable(Lines(output)).error) && active == old(active)
      ensures ParseTable(Lines(output)).Ok? ==>
                err == None && EntriesOf(active) == ParseTable(Lines(output)).value &&
                forall m :: m in active ==> fresh(m) && m.memo.None?
    {
      var r := GetActiveMounts(output);
      if r.Err? {
        return Some(r.error);
      }
      active := r.value;
      err := None;
    }

    /** The resolve callback for a service resolved to host `server`, `port` and TXT `path`:
        skip an export already active; otherwise create the allocated directory and mount,
        keeping the mount on success and removing the directory on failure.
        `mountOk` is what `system("mount ...")` returns; `fs` is the filesystem before. */
    method Reconcile(server: string, port: int, path: string, fs: set<string>, mountOk: bool)
      returns (cand: Mount, outcome: Outcome, fs': set<string>)
      modifies this
      ensures fresh(cand) && cand.server == NormalizeServer(server) && cand.port == port && cand.path == Some(path)
      ensures Includes(old(active), cand) ==>
                outcome == AlreadyActive && active == old(active) && fs' == fs && cand.memo == None
      ensures !Includes(old(active), cand) && !HasLastSegment(path) ==>
                outcome == PointRaised && active == old(active) && fs' == fs && cand.memo == None
      ensures !Includes(old(active), cand) && HasLastSegment(path) && Allocate(path, fs).None? ==>
                outcome == NoMountPoint && active == old(active) && fs' == fs && cand.memo == None
      ensures !Includes(old(active), cand) && HasLastSegment(path) && Allocate(path, fs).Some? ==>
                var p := Allocate(path, fs).value;
                p !in fs && cand.memo == Some(p) &&
                if mountOk then outcome == Mounted(p) && active == old(active) + [cand] && fs' == fs + {p}
                else outcome == MountFailed(p) && active == old(active) && fs' == fs
    {
      cand := new Mount(server, port, Some(path));
      fs' := fs;
      if Includes(active, cand) {
        return cand, AlreadyActive, fs';
      } else if !HasLastSegment(path) {
        return cand, PointRaised, fs';
      }
      var point := cand.MountPoint(fs);
      if point.None? {
        return cand, NoMountPoint, fs';
      }
      fs' := fs' + {point.value};               // FileUtils.mkdir(mount.mount_point)
      if mountOk {
        active := active + [cand];
        outcome := Mounted(point.value);
      } else {
        var dir := cand.MountPoint(fs');        // FileUtils.rmdir(mount.mount_point): cached
        fs' := fs' - {dir.value};
        outcome := MountFailed(point.value);
      }
    }
  }

  // ---------------------------------------------------------------------------
  // The main loop

  /** `main`'s loop for `n` ticks, counter `i` starting at 0: a tick re-reads the mount
      table when `i <= 0` and resets `i` to 4, then browses and decrements `i`.
      `refreshed[k]` says whether tick `k` re-read the table, `counters[k]` is `i` after it. */
  method MainLoop(n: nat) returns (refreshed: seq<bool>, counters: seq<int>, discoveries: nat)
    ensures |refreshed| == n && |counters| == n && discoveries == n
    ensures forall k :: 0 <= k < n ==> refreshed[k] == (k % SkipMountRetrievalCount == 0)
    ensures forall k :: 0 <= k < n ==> 0 <= counters[k] < SkipMountRetrievalCount
    ensures forall k :: 0 <= k < n ==> counters[k] == SkipMountRetrievalCount - 1 - k % SkipMountRetrievalCount
  {
    var i := 0;
    refreshed, counters, discoveries := [], [], 0;
    for t := 0 to n
      invariant |refreshed| == t && |counters| == t && discoveries == t
      invariant i == (SkipMountRetrievalCount - t % SkipMountRetrievalCount) % SkipMountRetrievalCount
      invariant forall k :: 0 <= k < t ==> refreshed[k] == (k % SkipMountRetrievalCount == 0)
      invariant forall k :: 0 <= k < t ==> counters[k] == SkipMountRetrievalCount - 1 - k % SkipMountRetrievalCount
    {
      var refresh := false;
      if i <= 0 {
        refresh := true;                   // @active_mounts = get_active_mounts
        i := SkipMountRetrievalCount;
      }
      discoveries := discoveries + 1;      // discover_nfs
      i := i - 1;
      refreshed := refreshed + [refresh];
      counters := counters + [i];
    }
  }
}
