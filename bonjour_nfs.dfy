/**
  `bonjour-nfs.rb` (version 0.9): the Mount record, whose equality ignores
  the port and letter case; its memoised mount-point allocator, which tries
  `/Volumes/<name>` and then `/Volumes/<name> (1)` up to `(9)`; the reader of
  `mount -t nfs` output, which stops at the `bonjour-nfs error` line the shell
  command prints on failure; and one reconcile step of the resolve callback.
  The filesystem is the set of paths that exist; the shell commands are an
  input string and a success flag.
 */
module BonjourNfs {
  import opened Wrappers
  import opened RubyText
  import opened MountPoints
  import opened MountTable

  /** `Mount::UNKNOWN_PORT`, the port of every mount read from the mount table. */
  const UnknownPort: int := -1

  /** The line `mount -t nfs 2>&1 || echo bonjour-nfs error` adds when `mount` fails. */
  const ErrorSentinel: string := "bonjour-nfs error"

  /** How many directories `mount_point` tries before giving up. */
  const ProbeCount: nat := 10

  // ---------------------------------------------------------------------------
  // The Mount record

  /** `server.chomp('.').chomp('.local')`. */
  function NormalizeServer(name: string): (r: string)
    ensures name == r || name == r + "." || name == r + ".local" || name == r + ".local."
  {
    Chomp(Chomp(name, "."), ".local")
  }

  /** `name.local.` loses both the dot and `.local`. */
  lemma {:induction false} NormalizeLocalDot(x: string)
    ensures NormalizeServer(x + ".local.") == x
  {
    assert x + ".local." == (x + ".local") + ".";
    ChompOf(x + ".local", ".");
    ChompOf(x, ".local");
  }

  /** Only one trailing dot goes, and `.local` stays unless it was right before that dot. */
  lemma {:induction false} NormalizeDot(x: string)
    requires !EndsWith(x, ".local")
    ensures NormalizeServer(x + ".") == x
  {
    ChompOf(x, ".");
  }

  /** `name.local` loses `.local`. */
  lemma {:induction false} NormalizeLocal(x: string)
    ensures NormalizeServer(x + ".local") == x
  {
    var s := x + ".local";
    assert s[|s| - 1..] == "l";
    ChompOf(x, ".local");
  }

  /** A name ending in neither `.` nor `.local` is kept as it is. */
  lemma {:induction false} NormalizePlain(x: string)
    requires !EndsWith(x, ".") && !EndsWith(x, ".local")
    ensures NormalizeServer(x) == x
  {
  }

  /** The directory tried after `k` collisions: `base (k)`. */
  function Numbered(base: string, k: nat): string {
    base + " (" + Decimal(k) + ")"
  }

  /** Probe `k` is `base`, then ` (`, then digits spelling `k`, then `)`. */
  lemma {:induction false} NumberedDigits(base: string, k: nat)
    ensures var r := Numbered(base, k);
              |r| == |base| + |Decimal(k)| + 3 && r[..|base|] == base &&
              r[|base|..|base| + 2] == " (" && r[|r| - 1] == ')' && DecimalValue(r[|base| + 2..|r| - 1]) == k
  {
    var r := Numbered(base, k);
    assert r[|base| + 2..|r| - 1] == Decimal(k);
  }

  /** The directories `mount_point` tries, in order: `base`, `base (1)`, ..., `base (9)`. */
  function Probes(base: string): (ps: seq<string>)
    ensures |ps| == ProbeCount && ps[0] == base
    ensures forall k :: 1 <= k < ProbeCount ==> ps[k] == Numbered(base, k)
  {
    seq(ProbeCount, k requires 0 <= k => if k == 0 then base else Numbered(base, k))
  }

  /** What a first call of `mount_point` yields for a remote `path` when the paths in `fs` exist. */
  function Allocate(path: string, fs: set<string>): (r: Option<string>)
    requires HasLastSegment(path)
    ensures r.Some? ==> r.value !in fs
    ensures r.Some? ==>
              r.value == BaseMountPoint(path) ||
              exists k :: 1 <= k < ProbeCount && r.value == Numbered(BaseMountPoint(path), k)
  {
    var ps := Probes(BaseMountPoint(path));
    var j := FirstAbsent(ps, fs);
    assert j < |ps| ==> j == 0 || ps[j] == Numbered(BaseMountPoint(path), j);
    FirstFree(ps, fs)
  }

  /** A free base directory is taken as it is. */
  lemma {:induction false} AllocateBase(path: string, fs: set<string>)
    requires HasLastSegment(path) && BaseMountPoint(path) !in fs
    ensures Allocate(path, fs) == Some(BaseMountPoint(path))
  {
    FirstFreeAt(Probes(BaseMountPoint(path)), fs, 0);
  }

  /** When `base` and `base (1)` to `base (k-1)` exist but `base (k)` does not, `base (k)` is taken. */
  lemma {:induction false} AllocateNumbered(path: string, fs: set<string>, k: nat)
    requires HasLastSegment(path) && 1 <= k < ProbeCount
    requires BaseMountPoint(path) in fs
    requires forall j :: 1 <= j < k ==> Numbered(BaseMountPoint(path), j) in fs
    requires Numbered(BaseMountPoint(path), k) !in fs
    ensures Allocate(path, fs) == Some(Numbered(BaseMountPoint(path), k))
  {
    var ps := Probes(BaseMountPoint(path));
    assert forall j :: 0 <= j < k ==> ps[j] in fs by {
      forall j | 0 <= j < k ensures ps[j] in fs {
        if j > 0 { assert ps[j] == Numbered(BaseMountPoint(path), j); }
      }
    }
    FirstFreeAt(ps, fs, k);
  }

  /** Allocation fails exactly when `base` and `base (1)` to `base (9)` all exist. */
  lemma {:induction false} AllocateExhausted(path: string, fs: set<string>)
    requires HasLastSegment(path)
    ensures Allocate(path, fs).None? <==>
              BaseMountPoint(path) in fs && forall k :: 1 <= k < ProbeCount ==> Numbered(BaseMountPoint(path), k) in fs
  {
    var base := BaseMountPoint(path);
    var ps := Probes(base);
    if base in fs && forall k :: 1 <= k < ProbeCount ==> Numbered(base, k) in fs {
      assert forall i :: 0 <= i < |ps| ==> ps[i] in fs by {
        forall i | 0 <= i < |ps| ensures ps[i] in fs {
          if i > 0 { assert ps[i] == Numbered(base, i); }
        }
      }
    }
    if Allocate(path, fs).None? {
      assert ps[0] in fs;
      assert forall k :: 1 <= k < ProbeCount ==> ps[k] in fs;
    }
  }

  /** The directory that would come after the last probe, `base (10)`, is never handed out. */
  lemma {:induction false} AllocateNeverTenth(path: string, fs: set<string>)
    requires HasLastSegment(path)
    ensures Allocate(path, fs) != Some(Numbered(BaseMountPoint(path), ProbeCount))
  {
    var base := BaseMountPoint(path);
    var ps := Probes(base);
    var tenth := Numbered(base, ProbeCount);
    assert Decimal(10) == Decimal(1) + Decimal(0);
    assert |tenth| == |base| + 5;
    forall k | 0 <= k < ProbeCount ensures ps[k] != tenth {
      if k > 0 {
        assert |Decimal(k)| == 1;
        assert |ps[k]| == |base| + 4;
      }
    }
  }

  /** For an export `dir/name`: `/Volumes/name` when free, `/Volumes/name (1)` when only that is taken. */
  lemma {:induction false} AllocateCollision(dir: string, name: string)
    requires name != [] && '/' !in name && name != "." && name != ".."
    ensures HasLastSegment(dir + "/" + name)
    ensures Allocate(dir + "/" + name, {}) == Some(MountPointRoot + "/" + name)
    ensures Allocate(dir + "/" + name, {MountPointRoot + "/" + name}) == Some(MountPointRoot + "/" + name + " (1)")
  {
    var path := dir + "/" + name;
    assert path + Repeat('/', 0) == path;
    BaseMountPointOf(dir, name, 0);
    var base := MountPointRoot + "/" + name;
    assert Numbered(base, 1) == base + " (1)";
    AllocateBase(path, {});
    AllocateNumbered(path, {base}, 1);
  }

  /** A remote export, observed in the mount table or discovered; `memo` caches its mount point. */
  class Mount {
    const server: string
    const port: int
    const path: Option<string>
    var memo: Option<string>

    /** `Mount.new(server, port, path)`. */
    constructor (server: string, port: int, path: Option<string>)
      ensures this.server == NormalizeServer(server) && this.port == port && this.path == path
      ensures memo == None
    {
      this.server := NormalizeServer(server);
      this.port := port;
      this.path := path;
      memo := None;
    }

    /** `mount_point`: the cached directory when there is one; otherwise the first of
        `Probes` missing from `fs`, which is then cached. Exhaustion leaves the cache empty.
        A nil path or one without a last segment raises in Ruby and is excluded. */
    method MountPoint(fs: set<string>) returns (r: Option<string>)
      requires memo.Some? || (path.Some? && HasLastSegment(path.value))
      modifies this
      ensures old(memo).Some? ==> r == old(memo) && memo == old(memo)
      ensures old(memo).None? ==> r == Allocate(path.value, fs) && memo == r
    {
      if memo.None? {
        var base := BaseMountPoint(path.value);
        ghost var probes := Probes(base);
        var i := 1;
        var candidate := base;
        while candidate in fs
          invariant 1 <= i <= ProbeCount
          invariant candidate == probes[i - 1]
          invariant i - 1 <= FirstAbsent(probes, fs)
          decreases ProbeCount - i
        {
          candidate := Numbered(base, i);
          i := i + 1;
          if i > ProbeCount {
            assert FirstFree(probes, fs) == None;
            return None;
          }
        }
        assert FirstAbsent(probes, fs) == i - 1;
        assert FirstFree(probes, fs) == Some(candidate);
        memo := Some(candidate);
      }
      r := memo;
    }
  }

  // ---------------------------------------------------------------------------
  // Equality

  /** `Mount#==`: the same server and the same path up to ASCII letter case; ports are not compared. */
  predicate SameExport(a: Mount, b: Mount)
    requires a.path.Some? && b.path.Some?
    ensures SameExport(a, b) <==>
              EqualIgnoringCase(a.server, b.server) && EqualIgnoringCase(a.path.value, b.path.value)
  {
    DowncaseEqual(a.server, b.server);
    DowncaseEqual(a.path.value, b.path.value);
    Downcase(a.server) == Downcase(b.server) && Downcase(a.path.value) == Downcase(b.path.value)
  }

  /** `Mount#==` is an equivalence relation. */
  lemma {:induction false} SameExportEquivalence(a: Mount, b: Mount, c: Mount)
    requires a.path.Some? && b.path.Some? && c.path.Some?
    ensures SameExport(a, a)
    ensures SameExport(a, b) ==> SameExport(b, a)
    ensures SameExport(a, b) && SameExport(b, c) ==> SameExport(a, c)
  {
  }

  /** An entry that ends `include?`: one with a path that equals the candidate, or one
      with the candidate's server and a nil path, on which `==` raises. */
  predicate Decides(e: Mount, cand: Mount)
    requires cand.path.Some?
  {
    if e.path.Some? then SameExport(e, cand) else Downcase(e.server) == Downcase(cand.server)
  }

  /** The index of the first deciding entry, `|active|` when there is none. */
  function FirstDecider(active: seq<Mount>, cand: Mount): (d: nat)
    requires cand.path.Some?
    ensures d <= |active|
    ensures forall i :: 0 <= i < d ==> !Decides(active[i], cand)
    ensures d < |active| ==> Decides(active[d], cand)
  {
    if active == [] || Decides(active[0], cand) then 0 else 1 + FirstDecider(active[1..], cand)
  }

  /** `active.include?(candidate)`, which calls `entry == candidate` on each entry in turn:
      the first deciding entry gives `true`, or `None` when `==` raises on its nil path;
      with no deciding entry the result is `false`. */
  function Includes(active: seq<Mount>, cand: Mount): (r: Option<bool>)
    requires cand.path.Some?
    ensures FirstDecider(active, cand) == |active| ==> r == Some(false)
    ensures FirstDecider(active, cand) < |active| ==>
              r == if active[FirstDecider(active, cand)].path.None? then None else Some(true)
  {
    if active == [] then Some(false)
    else if Downcase(active[0].server) != Downcase(cand.server) then Includes(active[1..], cand)
    else if active[0].path.None? then None
    else if Downcase(active[0].path.value) == Downcase(cand.path.value) then Some(true)
    else Includes(active[1..], cand)
  }

  /** What `include?` means as membership: with paths everywhere it is plain membership up
      to `==`; `true` needs an equal entry, a raise needs an entry with the candidate's
      server and a nil path, and `false` means no entry is equal and none raises. */
  lemma {:induction false} IncludesMembership(active: seq<Mount>, cand: Mount)
    requires cand.path.Some?
    ensures (forall k :: 0 <= k < |active| ==> active[k].path.Some?) ==>
              Includes(active, cand) == Some(exists k :: 0 <= k < |active| && active[k].path.Some? && SameExport(active[k], cand))
    ensures Includes(active, cand) == Some(true) ==>
              exists k :: 0 <= k < |active| && active[k].path.Some? && SameExport(active[k], cand)
    ensures Includes(active, cand).None? ==>
              exists k :: 0 <= k < |active| && active[k].path.None? && Downcase(active[k].server) == Downcase(cand.server)
    ensures Includes(active, cand) == Some(false) ==>
              (forall k :: 0 <= k < |active| && active[k].path.Some? ==> !SameExport(active[k], cand)) &&
              (forall k :: 0 <= k < |active| && active[k].path.None? ==> Downcase(active[k].server) != Downcase(cand.server))
  {
    var d := FirstDecider(active, cand);
    if d < |active| {
      assert Decides(active[d], cand);
    } else {
      assert forall k :: 0 <= k < |active| ==> !Decides(active[k], cand);
    }
  }

  /** The earlier deciding entry wins: `true` needs an equal entry before any raising one,
      and a raise needs a raising entry before any equal one. */
  lemma {:induction false} IncludesFirstWins(active: seq<Mount>, cand: Mount)
    requires cand.path.Some?
    ensures Includes(active, cand) == Some(true) ==>
              forall k :: 0 <= k < |active| && active[k].path.None? && Downcase(active[k].server) == Downcase(cand.server) ==>
                exists j :: 0 <= j < k && active[j].path.Some? && SameExport(active[j], cand)
    ensures Includes(active, cand).None? ==>
              forall k :: 0 <= k < |active| && active[k].path.Some? && SameExport(active[k], cand) ==>
                exists j :: 0 <= j < k && active[j].path.None? && Downcase(active[j].server) == Downcase(cand.server)
  {
    var d := FirstDecider(active, cand);
    if d < |active| {
      assert Decides(active[d], cand);
      forall k | 0 <= k < |active| && Decides(active[k], cand) && active[k].path.Some? != active[d].path.Some?
        ensures d < k
      {
      }
    }
  }

  /** Once a mount is appended after a negative check, any equal candidate finds it. */
  lemma {:induction false} NoDoubleMount(active: seq<Mount>, m: Mount, c: Mount)
    requires m.path.Some? && c.path.Some?
    requires Includes(active, m) == Some(false)
    requires SameExport(m, c)
    ensures Includes(active + [m], c) == Some(true)
  {
    if active == [] {
      assert [] + [m] == [m];
    } else {
      assert (active + [m])[0] == active[0];
      assert (active + [m])[1..] == active[1..] + [m];
      NoDoubleMount(active[1..], m, c);
    }
  }

  // ---------------------------------------------------------------------------
  // Reading the mount table

  function EntryOf(m: Mount): Entry {
    Entry(m.server, m.port, m.path)
  }

  function EntriesOf(ms: seq<Mount>): (es: seq<Entry>)
    ensures |es| == |ms| && forall i :: 0 <= i < |ms| ==> es[i] == EntryOf(ms[i])
  {
    seq(|ms|, i requires 0 <= i < |ms| => EntryOf(ms[i]))
  }

  lemma {:induction false} EntriesOfAppend(ms: seq<Mount>, ns: seq<Mount>)
    ensures EntriesOf(ms + ns) == EntriesOf(ms) + EntriesOf(ns)
  {
    assert forall i :: 0 <= i < |ns| ==> (ms + ns)[|ms| + i] == ns[i];
  }

  /** Why `get_active_mounts` raises: the sentinel line (with the first output line as
      message), or a first field made of colons, whose nil server `Mount.new` cannot chomp. */
  datatype TableError = QueryFailed(message: string) | MissingServer(line: string)

  /** One output line as `get_active_mounts` sees it: the sentinel, or a line cut into fields. */
  datatype TableLine = SentinelLine | Other(raw: RawLine)

  function ReadLine(line: string): TableLine {
    if line == ErrorSentinel then SentinelLine else Other(RawFields(line))
  }

  function ReadLines(lines: seq<string>): (ts: seq<TableLine>)
    ensures |ts| == |lines|
  {
    if lines == [] then [] else [ReadLine(lines[0])] + ReadLines(lines[1..])
  }

  /** Line `i` is read on its own. */
  lemma {:induction false} ReadLinesAt(lines: seq<string>, i: nat)
    requires i < |lines|
    ensures ReadLines(lines)[i] == ReadLine(lines[i])
  {
    if i > 0 {
      ReadLinesAt(lines[1..], i - 1);
    }
  }

  /** A line that makes `get_active_mounts` raise. */
  predicate Bad(t: TableLine) {
    t.SentinelLine? || t.raw.NoServer?
  }

  /** The Mount fields one good line gives: none for a blank line, else one. */
  function LineEntries(t: TableLine): seq<Entry> {
    match t
    case Other(Fields(server, path)) => [Entry(NormalizeServer(server), UnknownPort, path)]
    case _ => []
  }

  /** The Mount fields of every line, in order. */
  function Entries(ts: seq<TableLine>): seq<Entry> {
    if ts == [] then [] else Entries(ts[..|ts| - 1]) + LineEntries(ts[|ts| - 1])
  }

  /** Every line gives at most one entry, and each entry has the unknown port. */
  lemma {:induction false} EntriesBound(ts: seq<TableLine>)
    ensures |Entries(ts)| <= |ts|
    ensures forall i :: 0 <= i < |Entries(ts)| ==> Entries(ts)[i].port == UnknownPort
  {
    if ts != [] {
      EntriesBound(ts[..|ts| - 1]);
    }
  }

  /** One more line adds its own entries. */
  lemma {:induction false} EntriesStep(ts: seq<TableLine>, i: nat)
    requires i < |ts|
    ensures Entries(ts[..i + 1]) == Entries(ts[..i]) + LineEntries(ts[i])
  {
    assert ts[..i + 1][..i] == ts[..i];
  }

  /** The index of the first bad line, `|ts|` when there is none. */
  function FirstBad(ts: seq<TableLine>): (k: nat)
    ensures k <= |ts|
    ensures forall i :: 0 <= i < k ==> !Bad(ts[i])
    ensures k < |ts| ==> Bad(ts[k])
  {
    if ts == [] || Bad(ts[0]) then 0 else 1 + FirstBad(ts[1..])
  }

  /** No bad line among the first `k` puts the first bad one at `k` or later. */
  lemma {:induction false} FirstBadAtLeast(ts: seq<TableLine>, k: nat)
    requires k <= |ts|
    requires forall i :: 0 <= i < k ==> !Bad(ts[i])
    ensures k <= FirstBad(ts)
  {
    if k > 0 {
      assert !Bad(ts[0]);
      FirstBadAtLeast(ts[1..], k - 1);
    }
  }

  /** A good line at `k`, with none bad before it, moves the first bad line past `k`. */
  lemma {:induction false} FirstBadPast(ts: seq<TableLine>, k: nat)
    requires k < |ts| && k <= FirstBad(ts) && !Bad(ts[k])
    ensures k + 1 <= FirstBad(ts)
  {
  }

  /** The message `get_active_mounts` raises with on the sentinel. */
  function QueryMessage(lines: seq<string>): string
    requires lines != []
  {
    "in get_active_mounts: " + ChompLine(lines[0])
  }

  /** The error raised at bad line `k`. */
  function LineError(lines: seq<string>, k: nat): TableError
    requires k < |lines|
  {
    if lines[k] == ErrorSentinel then QueryFailed(QueryMessage(lines)) else MissingServer(lines[k])
  }

  /** What `get_active_mounts` returns for the given output lines, or why it raises. */
  function ParseTable(lines: seq<string>): (r: Result<seq<Entry>, TableError>)
    ensures r.Ok? ==> |r.value| <= |lines| && forall i :: 0 <= i < |r.value| ==> r.value[i].port == UnknownPort
    ensures r.Err? ==> exists k :: 0 <= k < |lines| && r.error == LineError(lines, k)
  {
    var ts := ReadLines(lines);
    EntriesBound(ts);
    var k := FirstBad(ts);
    if k < |ts| then Err(LineError(lines, k)) else Ok(Entries(ts))
  }

  /** With no bad line among the first `k`, the first bad one is `k` when line `k` is bad. */
  lemma {:induction false} ParseTableAt(lines: seq<string>, k: nat)
    requires k < |lines| && Bad(ReadLines(lines)[k])
    requires k <= FirstBad(ReadLines(lines))
    ensures ParseTable(lines) == Err(LineError(lines, k))
  {
    var ts := ReadLines(lines);
    var j := FirstBad(ts);
    assert j == k;
  }

  /** With no bad line, parsing yields the entries of every line. */
  lemma {:induction false} ParseTableAllGood(lines: seq<string>)
    requires FirstBad(ReadLines(lines)) == |lines|
    ensures ParseTable(lines) == Ok(Entries(ReadLines(lines)))
  {
  }

  /** Parsing succeeds exactly when no line is the sentinel or has a colon-only field. */
  lemma {:induction false} ParseTableOk(lines: seq<string>)
    ensures ParseTable(lines).Ok? <==>
              forall i :: 0 <= i < |lines| ==> lines[i] != ErrorSentinel && !RawFields(lines[i]).NoServer?
  {
    var ts := ReadLines(lines);
    forall i | 0 <= i < |lines|
      ensures Bad(ts[i]) <==> lines[i] == ErrorSentinel || RawFields(lines[i]).NoServer?
    {
      ReadLinesAt(lines, i);
    }
  }

  /** A sentinel line anywhere after lines with well-formed fields fails the read with
      the first output line as message. */
  lemma {:induction false} ParseTableSentinel(lines: seq<string>, k: nat)
    requires k < |lines| && lines[k] == ErrorSentinel
    requires forall i :: 0 <= i < k ==> lines[i] != ErrorSentinel && !RawFields(lines[i]).NoServer?
    ensures ParseTable(lines) == Err(QueryFailed(QueryMessage(lines)))
  {
    var ts := ReadLines(lines);
    ReadLinesAt(lines, k);
    forall i | 0 <= i < k
      ensures !Bad(ts[i])
    {
      ReadLinesAt(lines, i);
    }
    FirstBadAtLeast(ts, k);
    ParseTableAt(lines, k);
  }

  /** Each line contributes its own entries, in input order. */
  lemma {:induction false} EntriesAppend(a: seq<TableLine>, b: seq<TableLine>)
    ensures Entries(a + b) == Entries(a) + Entries(b)
  {
    if b == [] {
      assert a + b == a;
    } else {
      var b' := b[..|b| - 1];
      assert (a + b)[..|a + b| - 1] == a + b';
      assert (a + b)[|a + b| - 1] == b[|b| - 1];
      EntriesAppend(a, b');
    }
  }

  /** With fields on every line, entry `k` is built from line `k`. */
  lemma {:induction false} EntriesPointwise(ts: seq<TableLine>)
    requires forall i :: 0 <= i < |ts| ==> ts[i].Other? && ts[i].raw.Fields?
    ensures |Entries(ts)| == |ts|
    ensures forall k :: 0 <= k < |ts| ==>
              Entries(ts)[k] == Entry(NormalizeServer(ts[k].raw.server), UnknownPort, ts[k].raw.path)
  {
    if ts != [] {
      var init := ts[..|ts| - 1];
      EntriesPointwise(init);
      assert Entries(ts) == Entries(init) + LineEntries(ts[|ts| - 1]);
    }
  }

  /** A blank line gives no entry and no error. */
  lemma {:induction false} BlankLine(line: string)
    requires forall i :: 0 <= i < |line| ==> IsSpace(line[i])
    ensures ParseTable([line]) == Ok([])
  {
    assert line != ErrorSentinel by {
      assert !IsSpace(ErrorSentinel[0]);
    }
    FirstFieldSpec(line);
    var single: seq<string> := [line];
    assert single[1..] == [];
    var ts := ReadLines(single);
    assert ts == [Other(NoField)];
    assert Entries(ts) == Entries([]) + LineEntries(ts[0]);
  }

  /** A single line `server:path` followed by more fields reads as one entry with the
      normalised server, that path and an unknown port. */
  lemma {:induction false} ParseOneLine(lead: string, server: string, path: string, more: string, tail: string)
    requires forall i :: 0 <= i < |lead| ==> IsSpace(lead[i])
    requires ':' !in server && ':' !in path && path != []
    requires more == [] || more[0] == ':'
    requires forall i :: 0 <= i < |server| ==> !IsSpace(server[i])
    requires forall i :: 0 <= i < |path| ==> !IsSpace(path[i])
    requires forall i :: 0 <= i < |more| ==> !IsSpace(more[i])
    requires tail == [] || IsSpace(tail[0])
    ensures ParseTable([lead + server + ":" + path + more + tail]) ==
              Ok([Entry(NormalizeServer(server), UnknownPort, Some(path))])
  {
    var line := lead + server + ":" + path + more + tail;
    RawFieldsOf(lead, server, path, more, tail);
    assert line[|lead + server|] == ':';
    assert ':' !in ErrorSentinel;
    assert line != ErrorSentinel;
    var single: seq<string> := [line];
    assert single[1..] == [];
    var ts := ReadLines(single);
    assert ts == [Other(Fields(server, Some(path)))];
    assert ts[1..] == [];
    assert FirstBad(ts) == 1;
    assert Entries(ts) == Entries([]) + LineEntries(ts[0]);
    assert Entries(ts) == [Entry(NormalizeServer(server), UnknownPort, Some(path))];
    assert ParseTable(single) == Ok(Entries(ts));
  }

  // ---------------------------------------------------------------------------
  // The mounter

  /** `Mount.new(server, UNKNOWN_PORT, path)` for a line with fields; nothing for a blank line. */
  method NewMounts(t: TableLine) returns (ms: seq<Mount>)
    requires !Bad(t)
    ensures EntriesOf(ms) == LineEntries(t)
    ensures forall m :: m in ms ==> fresh(m) && m.memo.None?
  {
    match t
    case Other(Fields(server, path)) =>
      var m := new Mount(server, UnknownPort, path);
      ms := [m];
    case _ =>
      ms := [];
  }

  /** How one resolved service is handled. */
  datatype Outcome =
    | AlreadyActive          // an equal mount is active: nothing is done
    | CompareRaised          // `==` raised on an active entry with a nil path
    | PointRaised            // `mount_point` raised: the path has no last segment
    | NoMountPoint           // every probed directory exists
    | Mounted(point: string) // directory created and `mount` succeeded
    | MountFailed(point: string) // `mount` failed and the directory was removed again

  /** `BonjourNFSMounter`: the list of active mounts. */
  class Mounter {
    var active: seq<Mount>

    constructor ()
      ensures active == []
    {
      active := [];
    }

    /** `get_active_mounts` on the output of `mount -t nfs 2>&1 || echo bonjour-nfs error`. */
    method GetActiveMounts(output: string) returns (r: Result<seq<Mount>, TableError>)
      ensures ParseTable(Lines(output)).Err? ==> r == Err(ParseTable(Lines(output)).error)
      ensures ParseTable(Lines(output)).Ok? ==> r.Ok? && EntriesOf(r.value) == ParseTable(Lines(output)).value
      ensures r.Ok? ==> forall m :: m in r.value ==> fresh(m) && m.memo.None?
    {
      var lines := Lines(output);
      ghost var ts := ReadLines(lines);
      var mounts: seq<Mount> := [];
      for i := 0 to |lines|
        invariant i <= FirstBad(ts)
        invariant EntriesOf(mounts) == Entries(ts[..i])
        invariant forall m :: m in mounts ==> fresh(m) && m.memo.None?
      {
        var t := ReadLine(lines[i]);
        ReadLinesAt(lines, i);
        if Bad(t) {
          ParseTableAt(lines, i);
          return Err(LineError(lines, i));
        }
        FirstBadPast(ts, i);
        EntriesStep(ts, i);
        var ms := NewMounts(t);
        EntriesOfAppend(mounts, ms);
        mounts := mounts + ms;
      }
      assert ts[..|ts|] == ts;
      ParseTableAllGood(lines);
      r := Ok(mounts);
    }

    /** `@active_mounts = get_active_mounts`: replaced wholesale, or left alone when the read raises. */
    method Refresh(output: string) returns (err: Option<TableError>)
      modifies this
      ensures ParseTable(Lines(output)).Err? ==> err == Some(ParseTable(Lines(output)).error) && active == old(active)
      ensures ParseTable(Lines(output)).Ok? ==>
                err == None && EntriesOf(active) == ParseTable(Lines(output)).value &&
                forall m :: m in active ==> fresh(m) && m.memo.None?
    {
      var r := GetActiveMounts(output);
      if r.Err? {
        return Some(r.error);
      }
      active := r.value;
      err := None;
    }

    /** The resolve callback for a service resolved to `server`, `port` and TXT `path`:
        skip an export already active; otherwise create the allocated directory and mount,
        keeping the mount on success and removing the directory on failure.
        `mountOk` is what `system("mount ...")` returns; `fs` is the filesystem before. */
    method Reconcile(server: string, port: int, path: string, fs: set<string>, mountOk: bool)
      returns (cand: Mount, outcome: Outcome, fs': set<string>)
      modifies this
      ensures fresh(cand) && cand.server == NormalizeServer(server) && cand.port == port && cand.path == Some(path)
      ensures Includes(old(active), cand) == Some(true) ==>
                outcome == AlreadyActive && active == old(active) && fs' == fs && cand.memo == None
      ensures Includes(old(active), cand).None? ==>
                outcome == CompareRaised && active == old(active) && fs' == fs && cand.memo == None
      ensures Includes(old(active), cand) == Some(false) && !HasLastSegment(path) ==>
                outcome == PointRaised && active == old(active) && fs' == fs && cand.memo == None
      ensures Includes(old(active), cand) == Some(false) && HasLastSegment(path) && Allocate(path, fs).None? ==>
                outcome == NoMountPoint && active == old(active) && fs' == fs && cand.memo == None
      ensures Includes(old(active), cand) == Some(false) && HasLastSegment(path) && Allocate(path, fs).Some? ==>
                var p := Allocate(path, fs).value;
                p !in fs && cand.memo == Some(p) &&
                if mountOk then outcome == Mounted(p) && active == old(active) + [cand] && fs' == fs + {p}
                else outcome == MountFailed(p) && active == old(active) && fs' == fs
    {
      cand := new Mount(server, port, Some(path));
      fs' := fs;
      var included := Includes(active, cand);
      if included == Some(true) {
        return cand, AlreadyActive, fs';
      } else if included.None? {
        return cand, CompareRaised, fs';
      } else if !HasLastSegment(path) {
        return cand, PointRaised, fs';
      }
      var point := cand.MountPoint(fs);
      if point.None? {
        return cand, NoMountPoint, fs';
      }
      fs' := fs' + {point.value};               // FileUtils.mkdir(mount.mount_point)
      if mountOk {
        active := active + [cand];
        outcome := Mounted(point.value);
      } else {
        var dir := cand.MountPoint(fs');        // FileUtils.rmdir(mount.mount_point): cached
        fs' := fs' - {dir.value};
        outcome := MountFailed(point.value);
      }
    }
  }
}
