# bonjour-nfs: a verified model of the mount bookkeeping

bonjour-nfs is a small macOS daemon that watches DNS-SD for `_nfs._tcp` services and
mounts each export it has not mounted yet under `/Volumes`. The repository holds two
near-duplicate variants of it: `bonjour-nfs.rb` (version 0.9) and `bonjournfsmd.rb`
(version 0.8). Their policies differ, so each variant is its own Dafny module.

Each module models the following parts of its variant:

- **The `Mount` record** (a `class`). Its constructor normalises the server name.
  Its `==` ignores the port. Its memoised `mount_point` allocator probes numbered
  directories until it finds one that does not exist. The memo is a mutable
  `Option<string>` field. The filesystem is the set of paths that exist, passed in
  as a parameter.
- **`get_active_mounts`**, a loop over the lines of the `mount -t nfs` output. Each
  line with fields becomes a fresh `Mount`. The loop is proved against `ParseTable`,
  a function on the lines.
- **The reconcile step of the resolve callback.** If an equal mount is already
  active, nothing happens. Otherwise the step creates the allocated directory and
  runs the oracle's `mount`. On success the candidate is appended to the active list;
  on failure the directory is removed again.
- **The main loop's skip counter** (`bonjournfsmd.rb` only). It re-reads the mount
  table on every fourth tick.

Shared modules:

| module | contents |
|---|---|
| `Wrappers` | `Option` and `Result` |
| `RubyText` | the Ruby string operations the code relies on: `chomp`, ASCII `downcase`, `split(sep)` (which drops trailing empty pieces), `split()[0]` and `Integer#to_s` |
| `MountPoints` | the last segment of a path, the `Pathname` join under `/Volumes`, and the first-free choice among probes |
| `MountTable` | one mount-table line cut into its server and path fields |

The two variants differ as follows:

| | `bonjour-nfs.rb` | `bonjournfsmd.rb` |
|---|---|---|
| server normalisation | `chomp('.').chomp('.local')` | `chomp('.')` only: `.local` stays |
| `Mount#==` | ASCII case-insensitive on server and path; raises when an entry's path is nil and the servers match | exact on server and path; nil equals nil |
| probes | `base`, `base (1)` … `base (9)` | `base`, `base1` … `base49` |
| mount-table read | fails at the `bonjour-nfs error` line | no sentinel line |
| refresh | every tick | ticks 0, 4, 8, … |

The model follows the code on these points, where the code is easy to misread:

- **The colon split.** `server_path.split(':')` splits at *every* colon and binds the first two pieces. Splitting only at the first colon would behave differently.
- **Probe limits.** `bonjournfsmd.rb` probes 50 names, not 10.
- **Equality.** `bonjournfsmd.rb` compares exactly, not case-insensitively.
- **Memoisation.** The memo is set only when allocation succeeds. After exhaustion it stays empty, so a later call probes again.

## Model

| member | source | states |
|---|---|---|
| RubyText.Chomp | bonjour-nfs.rb:111 | `chomp(suffix)` removes the suffix once when it is there and changes nothing otherwise |
| RubyText.ChompOf | bonjour-nfs.rb:111 | chomping a suffix off `x + suffix` gives back exactly `x` |
| RubyText.ChompLine | bonjour-nfs.rb:54 | `chomp()` removes a trailing `\r\n` as a whole, or else exactly one trailing `\n` or `\r`, and leaves a string that does not end in one unchanged |
| RubyText.Downcase | bonjour-nfs.rb:119-120 | `downcase` keeps the length and lower-cases each character on its own (ASCII) |
| RubyText.DowncaseEqual | bonjour-nfs.rb:119-120 | two strings downcase to the same string iff they agree character by character up to ASCII case |
| RubyText.SplitAll | bonjour-nfs.rb:58 | splitting always yields at least one piece, the empty string one empty piece |
| RubyText.SplitAllCount | bonjour-nfs.rb:58 | there is exactly one more piece than there are separators |
| RubyText.SplitAllPieces | bonjour-nfs.rb:58 | the pieces between separators contain no separator |
| RubyText.JoinSplitAll | bonjour-nfs.rb:58 | joining the pieces with the separator gives the original string back |
| RubyText.SplitAllAppend | bonjour-nfs.rb:128 | splitting `a + sep + b` gives the pieces of `a` followed by those of `b` |
| RubyText.DropTrailingEmptySpec | bonjour-nfs.rb:58 | `split` keeps a prefix of the pieces that is empty or ends in a non-empty piece, and everything dropped is empty |
| RubyText.DropTrailingEmptyOf | bonjour-nfs.rb:128 | trailing empty pieces after a non-empty one are exactly what is dropped |
| RubyText.Split | bonjour-nfs.rb:58 | `split(sep)` is a prefix of the pieces between separators that is empty or ends in a non-empty piece |
| RubyText.SplitPieces | bonjour-nfs.rb:58 | no piece of `split(sep)` holds the separator, and the last piece is not empty |
| RubyText.OnlySeparators | bonjour-nfs.rb:58 | `split(sep)` is empty iff the string consists of separators only (the empty string included) |
| RubyText.FirstField | bonjour-nfs.rb:56 | `split()[0]` is nil iff nothing but whitespace is left after skipping leading whitespace; otherwise it is the non-empty, whitespace-free text from there up to the next whitespace or the end |
| RubyText.FirstFieldSpec | bonjour-nfs.rb:56 | `split()[0]` is nil iff the line is all whitespace; otherwise it is a non-empty run of non-space characters |
| RubyText.FirstFieldOf | bonjour-nfs.rb:56 | after leading whitespace, the first field is the word up to the next whitespace |
| RubyText.Decimal | bonjour-nfs.rb:133 | `to_s` of a natural number is a non-empty run of digits whose decimal value (`DecimalValue`) is the number, with no leading zero, one digit long iff the number is below 10 |
| RubyText.DecimalInjective | bonjournfsmd.rb:128 | different numbers print differently |
| MountPoints.LastSegment | bonjour-nfs.rb:128 | `path.split('/').last` is nil iff the path is empty or made of slashes only; otherwise it is a non-empty segment without `/` |
| MountPoints.LastSegmentBare | bonjour-nfs.rb:128 | a path with no slash before its name, such as `data` or `data/`, has that name as its last segment |
| MountPoints.LastSegmentOf | bonjour-nfs.rb:128 | the last segment of `dir/name`, with or without trailing slashes, is `name` |
| MountPoints.BasePoint | bonjour-nfs.rb:127-128 | `Pathname.new('/Volumes') + segment` is an absolute path; for an ordinary segment it lies under `/Volumes/` and its last segment is that segment |
| MountPoints.BaseMountPoint | bonjour-nfs.rb:127-128 | the base directory is absolute, and unless the export's last segment is `.` or `..` it lies under `/Volumes/` and ends in the export's last segment |
| MountPoints.BaseMountPointOf | bonjour-nfs.rb:127-128 | for `dir/name` with an ordinary `name`, the base directory is `/Volumes/name` |
| MountPoints.FirstAbsent | bonjour-nfs.rb:132-141 | the index where probing stops: every earlier probe exists and the probe there does not |
| MountPoints.FirstFree | bonjour-nfs.rb:132-141 | the chosen directory is a probe that does not exist; there is none iff every probe exists |
| MountPoints.FirstFreeAt | bonjour-nfs.rb:132-143 | the probe at the first index missing from the filesystem is the one chosen |
| MountTable.Lines | bonjour-nfs.rb:51 | `split("\n")` gives lines that hold no newline, the last of them not empty |
| MountTable.RawFields | bonjour-nfs.rb:56-58 | a line is blank iff it has no first field; the server and path pieces hold no colon; a nil path means the first field splits into the server alone |
| MountTable.RawFieldsNoServer | bonjour-nfs.rb:56-59 | the server is nil iff the first field consists only of colons |
| MountTable.RawFieldsOf | bonjour-nfs.rb:56-58 | a line `server:path[:more] rest` gives that server and that path, and ignores later colon pieces and fields |
| MountTable.RawFieldsServerOnly | bonjour-nfs.rb:56-58 | a first field `server` or `server:` gives that server and a nil path |
| BonjourNfs.NormalizeLocalDot | bonjour-nfs.rb:110-115 | `x.local.` normalises to `x` |
| BonjourNfs.NormalizeLocal | bonjour-nfs.rb:110-115 | `x.local` normalises to `x` |
| BonjourNfs.NormalizeDot | bonjour-nfs.rb:110-115 | `x.` normalises to `x` when `x` does not end in `.local`: only one dot goes |
| BonjourNfs.NormalizePlain | bonjour-nfs.rb:110-115 | a name ending in neither `.` nor `.local` is kept |
| BonjourNfs.NormalizeServer | bonjour-nfs.rb:111 | the normalised server followed by nothing, `.`, `.local` or `.local.` gives back the name |
| BonjourNfs.Mount.constructor | bonjour-nfs.rb:110-115 | the server is normalised, port and path are stored unchanged, and no mount point is cached |
| BonjourNfs.Probes | bonjour-nfs.rb:127-140 | ten probes: `base`, then `base (k)` for k = 1 … 9 |
| BonjourNfs.NumberedDigits | bonjour-nfs.rb:133 | probe k is `base`, then ` (`, then digits whose value is k, then `)` |
| BonjourNfs.Allocate | bonjour-nfs.rb:127-143 | an allocated directory does not exist and is the base directory or one of `base (1)` … `base (9)` |
| BonjourNfs.AllocateBase | bonjour-nfs.rb:127-132 | a free `/Volumes/<segment>` is taken as it is |
| BonjourNfs.AllocateNumbered | bonjour-nfs.rb:132-143 | with `base` and `base (1)` … `base (k-1)` taken and `base (k)` free, `base (k)` is chosen |
| BonjourNfs.AllocateExhausted | bonjour-nfs.rb:132-140 | allocation fails iff `base` and `base (1)` … `base (9)` all exist |
| BonjourNfs.AllocateNeverTenth | bonjour-nfs.rb:133-140 | `base (10)`, built just before giving up, is never returned |
| BonjourNfs.AllocateCollision | bonjour-nfs.rb:127-143 | `dir/name` gets `/Volumes/name`, or `/Volumes/name (1)` when only `/Volumes/name` exists |
| BonjourNfs.Mount.MountPoint | bonjour-nfs.rb:123-147 | with a cached value: returns it and changes nothing, whatever exists. Otherwise: returns the first free probe and caches it, or returns nil and leaves the cache empty |
| BonjourNfs.SameExport | bonjour-nfs.rb:117-121 | `==` holds iff server and path agree character by character up to ASCII case, whatever the ports |
| BonjourNfs.SameExportEquivalence | bonjour-nfs.rb:117-121 | `==` is reflexive, symmetric and transitive |
| BonjourNfs.FirstDecider | bonjour-nfs.rb:79 | the index where `include?` stops: no earlier entry equals the candidate or raises, and the entry there does one of the two |
| BonjourNfs.Includes | bonjour-nfs.rb:79 | `include?` with entries as receivers: `false` when no entry decides; otherwise the first deciding entry gives `true` when it has a path, and a raise when its path is nil |
| BonjourNfs.IncludesMembership | bonjour-nfs.rb:79 | when every entry has a path, true iff some entry equals the candidate; true only then; raises only when an entry with the candidate's server has a nil path; false only when no entry with a path equals the candidate and no entry with a nil path has its server |
| BonjourNfs.IncludesFirstWins | bonjour-nfs.rb:79 | `true` needs an equal entry before every nil-path entry with the candidate's server, and a raise needs such a nil-path entry before every equal entry |
| BonjourNfs.NoDoubleMount | bonjour-nfs.rb:79-84 | once a candidate not yet included is appended, any candidate equal to it is found |
| BonjourNfs.ParseTable | bonjour-nfs.rb:49-66 | a successful read gives at most one record per line, each with port -1; a failed one raises the error of one of the lines |
| BonjourNfs.EntriesBound | bonjour-nfs.rb:56-62 | every line gives at most one record, and every record has port -1 |
| BonjourNfs.ParseTableOk | bonjour-nfs.rb:49-66 | the read succeeds iff no line is `bonjour-nfs error` and no first field consists only of colons |
| BonjourNfs.ParseTableSentinel | bonjour-nfs.rb:51-55 | a sentinel line after well-formed lines fails the read with `in get_active_mounts: ` followed by the first line chomped |
| BonjourNfs.ParseTableAt | bonjour-nfs.rb:52-59 | the first bad line decides the error |
| BonjourNfs.EntriesAppend | bonjour-nfs.rb:52-63 | the records of two runs of lines are those of each run, in input order |
| BonjourNfs.EntriesPointwise | bonjour-nfs.rb:56-62 | when every line has fields, record `k` has line `k`'s normalised server and path and port -1 |
| BonjourNfs.BlankLine | bonjour-nfs.rb:56-57 | a blank line gives no record and no error |
| BonjourNfs.ParseOneLine | bonjour-nfs.rb:56-62 | one line `server:path …` gives one record: the normalised server, the path, and port `UNKNOWN_PORT` (-1) |
| BonjourNfs.NewMounts | bonjour-nfs.rb:57-61 | a line with fields makes one fresh Mount with those fields; a blank line makes none |
| BonjourNfs.Mounter.GetActiveMounts | bonjour-nfs.rb:49-66 | the fresh mounts returned carry exactly `ParseTable`'s records, or the read fails with `ParseTable`'s error |
| BonjourNfs.Mounter.Refresh | bonjour-nfs.rb:43 | the active list is replaced by the records read, or left alone when the read fails |
| BonjourNfs.Mounter.Reconcile | bonjour-nfs.rb:78-90 | an equal active mount means no change. A raising comparison, a path without a last segment (`mount_point` raises) or an exhausted allocation also means no change. Otherwise the allocated directory is cached; a successful mount appends the candidate and keeps the directory, and a failed mount leaves the list and the filesystem as they were |
| BonjourNfsmd.NormalizeDot | bonjournfsmd.rb:106-111 | `x.` normalises to `x`: only one dot goes |
| BonjourNfsmd.NormalizeKeepsLocal | bonjournfsmd.rb:106-111 | `x.local` is kept as it is |
| BonjourNfsmd.NormalizeServer | bonjournfsmd.rb:107 | the normalised server is the name itself or the name less one trailing dot, and the dot goes iff the name ends in one |
| BonjourNfsmd.Mount.constructor | bonjournfsmd.rb:106-111 | the server loses one trailing dot, port and path are stored unchanged, and no mount point is cached |
| BonjourNfsmd.Probes | bonjournfsmd.rb:122-135 | fifty probes: `base`, then `base` followed by the digits of k, for k = 1 … 49 |
| BonjourNfsmd.NumberedDigits | bonjournfsmd.rb:128 | probe k is `base` followed by digits whose value is k |
| BonjourNfsmd.Allocate | bonjournfsmd.rb:122-138 | an allocated directory does not exist and is the base directory or one of `base1` … `base49` |
| BonjourNfsmd.AllocateBase | bonjournfsmd.rb:122-127 | a free `/Volumes/<segment>` is taken as it is |
| BonjourNfsmd.AllocateNumbered | bonjournfsmd.rb:127-138 | with `base` and `base1` … `base(k-1)` taken and `basek` free, `basek` is chosen |
| BonjourNfsmd.AllocateExhausted | bonjournfsmd.rb:127-135 | allocation fails iff `base` and `base1` … `base49` all exist |
| BonjourNfsmd.AllocateNeverFiftieth | bonjournfsmd.rb:128-135 | `base50`, built just before giving up, is never returned |
| BonjourNfsmd.NumberedIsBase | bonjournfsmd.rb:122-128 | probe k for segment `name` is the base directory of segment `name` followed by the digits of k |
| BonjourNfsmd.Mount.MountPoint | bonjournfsmd.rb:118-142 | with a cached value: returns it and changes nothing. Otherwise: returns the first free probe and caches it, or returns nil and leaves the cache empty |
| BonjourNfsmd.SameExport | bonjournfsmd.rb:113-116 | `==` holds iff the two mounts are the same mount-table entry once the port is disregarded |
| BonjourNfsmd.Includes | bonjournfsmd.rb:113-116 | `include?` is true iff some active entry has exactly the candidate's server and path, whatever the ports |
| BonjourNfsmd.NoDoubleMount | bonjournfsmd.rb:75-80 | once a candidate not yet included is appended, any candidate equal to it is found |
| BonjourNfsmd.ParseTable | bonjournfsmd.rb:50-62 | a successful read gives at most one record per line, each with port -1; a failed one names one of the lines |
| BonjourNfsmd.EntriesBound | bonjournfsmd.rb:53-59 | every line gives at most one record, and every record has port -1 |
| BonjourNfsmd.ParseTableOk | bonjournfsmd.rb:50-62 | the read succeeds iff no first field consists only of colons: there is no sentinel line |
| BonjourNfsmd.ParseTableAt | bonjournfsmd.rb:53-57 | the first line with a nil server decides the error |
| BonjourNfsmd.EntriesPointwise | bonjournfsmd.rb:53-59 | when every line has fields, record `k` has line `k`'s normalised server and path and port -1 |
| BonjourNfsmd.ParseOneLine | bonjournfsmd.rb:53-59 | one line `server:path …` gives one record: the server less one trailing dot, the path, and port -1 |
| BonjourNfsmd.NewMounts | bonjournfsmd.rb:55-58 | a line with fields makes one fresh Mount with those fields; a blank line makes none |
| BonjourNfsmd.Mounter.GetActiveMounts | bonjournfsmd.rb:50-62 | the fresh mounts returned carry exactly `ParseTable`'s records, or the read fails with `ParseTable`'s error |
| BonjourNfsmd.Mounter.Refresh | bonjournfsmd.rb:40 | the active list is replaced by the records read, or left alone when the read fails |
| BonjourNfsmd.Mounter.Reconcile | bonjournfsmd.rb:74-86 | an equal active mount means no change, and so do a path without a last segment (`mount_point` raises) and an exhausted allocation. Otherwise the allocated directory is cached; a successful mount appends the candidate and keeps the directory, and a failed mount leaves the list and the filesystem as they were |
| BonjourNfsmd.MainLoop | bonjournfsmd.rb:36-46 | with the counter starting at 0, tick k refreshes iff k mod 4 = 0 and browses on every tick; after tick k the counter is 3 - k mod 4, which lies in 0..3 |

## Left out

- **DNS-SD browsing and resolving** (`DNSSD.browse`, `DNSSD.resolve`). These run in a foreign library, asynchronously. `Reconcile` takes what a resolve reply carries as parameters: `resolve_reply.name` in `bonjour-nfs.rb`, `resolve_reply.target` in `bonjournfsmd.rb`, then the port and the TXT `path`.
- **Shell commands.** The backtick `mount -t nfs` becomes its output string. `system("mount ...")` becomes a success flag. Building the command string, `$?` and logging are not modelled.
- **Concurrency, `sleep` and the endless `loop`.** Callbacks race with the main loop in the daemon; the model runs one step at a time. `MainLoop` runs a given number of ticks. It records when the table would be re-read, and does not re-read it or browse itself.
- **The main loop of `bonjour-nfs.rb`.** It re-reads the table on every tick. That is one `Refresh` per tick, with no state of its own to model.
- **Boundary code:** daemonisation, `GetoptLong` options, the root check, `Logger` set-up and log calls, the `p m` debug print, `to_s`, and `main`'s `rescue`.
- **Exceptions from `FileUtils.mkdir` and `rmdir`.** The model treats `mkdir` of the allocated directory as adding it to the set, and `rmdir` as removing it. The directory chosen does not exist by construction.
- **`Reconcile` after exhausted allocation**, which calls `mkdir(nil)`. That call raises in Ruby. The model reports `NoMountPoint` and changes nothing, which is the state the raise leaves behind.
- **Non-ASCII `downcase`.** `Downcase` lower-cases ASCII letters only.
- **`Mount.MountPoint` (both variants)** requires a path with a non-empty last segment. For a nil path or one made of slashes, `@path.split('/').last` and the `Pathname` join raise in Ruby.
- **`Reconcile` (both variants)** takes a non-nil TXT `path`. With a nil path, `bonjour-nfs.rb`'s `==` (and `mount_point` in both variants) raises. Any string path is accepted. The `include?` check comes first, as in the source (bonjour-nfs.rb:79-82). So an empty or slash-only path is skipped (`AlreadyActive`) when an equal entry is active. In `bonjour-nfs.rb` it ends in `CompareRaised` when the comparison raises first. Only when `include?` returns false does it end in `PointRaised`, with no change, because `mount_point` raises on it.
- **`Mount#==` in `bonjour-nfs.rb`** is modelled only through `SameExport`, which takes two mounts with paths, and `Includes`, which models the raise. A nil path on the candidate's side is not modelled, because `Reconcile` always builds the candidate with a path.
- **Error reporting in `Refresh`.** When `get_active_mounts` raises, `Refresh` returns the error. In the daemon the exception ends the main loop: `main` rescues it and logs it in `bonjour-nfs.rb`, and nothing rescues it in `bonjournfsmd.rb`.
