/**
  The large-file step of the importer (`migrate_large_files_to_lfs`): walk
  the checked-out working tree, select every regular file over 100 MiB
  whose path does not contain ".git", and put the selection under Git LFS
  with one fixed script of git commands.

  The file system is an input: the walk is the sequence of directories
  `os.walk(".")` yields, each with the names of the non-directory entries
  in it and what `os.path.isfile` / `os.path.getsize` report for them.
  Running git is an input too: `ok(k)` tells whether the k-th command
  issued (counting from 0) exits with status zero.
 */
module LargeFiles {
  import opened Wrappers
  import opened StringOps

  // ---------------------------------------------------------------------------
  // The walk
  // ---------------------------------------------------------------------------

  /** Files strictly larger than this many bytes (100 MiB) are selected. */
  const Threshold: nat := 104857600

  /** Paths containing this text anywhere are skipped. */
  const Excluded: string := ".git"

  /** What the file system reports for one name in a directory listing. */
  datatype Probe =
    | NotAFile              // os.path.isfile is false (a broken link, a socket, ...)
    | FileOfSize(size: nat) // a regular file, and the size os.path.getsize returns
    | SizeUnavailable       // a regular file whose size query raises (removed meanwhile, unreadable)

  /** A non-directory name reported by the walk. */
  datatype WalkFile = WalkFile(name: string, probe: Probe)

  /** One step of the walk: a directory path and the files listed in it. */
  datatype WalkDir = WalkDir(root: string, files: seq<WalkFile>)

  /** One file of the flattened walk, under its joined path. */
  datatype Entry = Entry(path: string, probe: Probe)

  /** `os.path.join(root, name)` on POSIX. */
  function Join(root: string, name: string): (p: string)
    ensures EndsWith(p, name)
  {
    if StartsWith(name, "/") then name
    else if root == [] || root[|root| - 1] == '/' then root + name
    else root + "/" + name
  }

  /** Joining keeps any ".git" of the name, and of the directory when the name is relative. */
  lemma JoinKeepsExcludedMarker(root: string, name: string)
    ensures Contains(name, Excluded) ==> Contains(Join(root, name), Excluded)
    ensures !StartsWith(name, "/") && Contains(root, Excluded) ==> Contains(Join(root, name), Excluded)
  {
    if !StartsWith(name, "/") {
      if root == [] || root[|root| - 1] == '/' {
        ContainsInConcat(root, name, Excluded);
      } else {
        assert root + "/" + name == root + ("/" + name);
        ContainsInConcat(root, "/" + name, Excluded);
        ContainsInConcat("/", name, Excluded);
      }
    }
  }

  /** The files of one directory under their joined paths, in listing order. */
  function Entries(root: string, files: seq<WalkFile>): seq<Entry>
  {
    seq(|files|, j requires 0 <= j < |files| => Entry(Join(root, files[j].name), files[j].probe))
  }

  /** Listing a directory's files in two runs lists the first run, then the second. */
  lemma EntriesAppend(root: string, a: seq<WalkFile>, b: seq<WalkFile>)
    ensures Entries(root, a + b) == Entries(root, a) + Entries(root, b)
  {
    var l, r := Entries(root, a + b), Entries(root, a) + Entries(root, b);
    forall k | 0 <= k < |l| ensures l[k] == r[k] {
      if k >= |a| {
        assert (a + b)[k] == b[k - |a|];
      }
    }
  }

  /** Every file of the walk, directory after directory, as the nested loops visit them. */
  function Listing(walk: seq<WalkDir>): seq<Entry>
    decreases |walk|
  {
    if walk == [] then []
    else Listing(walk[..|walk| - 1]) + Entries(walk[|walk| - 1].root, walk[|walk| - 1].files)
  }

  lemma {:induction false} ListingAppend(a: seq<WalkDir>, b: seq<WalkDir>)
    ensures Listing(a + b) == Listing(a) + Listing(b)
    decreases |b|
  {
    if b != [] {
      assert (a + b)[..|a + b| - 1] == a + b[..|b| - 1];
      ListingAppend(a, b[..|b| - 1]);
    } else {
      assert a + b == a;
    }
  }

  // ---------------------------------------------------------------------------
  // Selection
  // ---------------------------------------------------------------------------

  /** The entry is one the scan keeps: no ".git" in its path, a regular file, over the threshold. */
  predicate Qualifies(e: Entry)
  {
    !Contains(e.path, Excluded) && e.probe.FileOfSize? && e.probe.size > Threshold
  }

  /** The entry makes the scan raise: its size is queried and the query fails. */
  predicate Aborts(e: Entry)
  {
    !Contains(e.path, Excluded) && e.probe.SizeUnavailable?
  }

  /** The paths of the qualifying entries, in listing order. */
  function Selection(es: seq<Entry>): seq<string>
    decreases |es|
  {
    if es == [] then []
    else Selection(es[..|es| - 1]) + (if Qualifies(es[|es| - 1]) then [es[|es| - 1].path] else [])
  }

  /** Some entry of the listing makes the scan raise. */
  predicate ScanRaises(es: seq<Entry>)
  {
    exists i :: 0 <= i < |es| && Aborts(es[i])
  }

  /** The outcome of the scan: the selected paths, or None when it raised. */
  function Scan(es: seq<Entry>): Option<seq<string>>
  {
    if ScanRaises(es) then None else Some(Selection(es))
  }

  /** Selection distributes over concatenation: nothing is reordered, dropped or added. */
  lemma {:induction false} SelectionAppend(a: seq<Entry>, b: seq<Entry>)
    ensures Selection(a + b) == Selection(a) + Selection(b)
    decreases |b|
  {
    if b == [] {
      assert a + b == a;
    } else {
      assert (a + b)[..|a + b| - 1] == a + b[..|b| - 1];
      SelectionAppend(a, b[..|b| - 1]);
    }
  }

  /** A path is selected exactly when some entry of the listing with that path qualifies. */
  lemma {:induction false} SelectionMembership(es: seq<Entry>, p: string)
    ensures p in Selection(es) <==> exists i :: 0 <= i < |es| && es[i].path == p && Qualifies(es[i])
    decreases |es|
  {
    if es != [] {
      var init := es[..|es| - 1];
      SelectionMembership(init, p);
      if exists i :: 0 <= i < |init| && init[i].path == p && Qualifies(init[i]) {
        var i :| 0 <= i < |init| && init[i].path == p && Qualifies(init[i]);
        assert es[i] == init[i];
      }
      if i :| 0 <= i < |es| - 1 && es[i].path == p && Qualifies(es[i]) {
        assert init[i] == es[i];
      }
    }
  }

  /** Each selected path is over 100 MiB, a regular file, and has no ".git" in it. */
  lemma SelectedAreLarge(es: seq<Entry>, p: string)
    requires p in Selection(es)
    ensures !Contains(p, Excluded)
    ensures exists i :: 0 <= i < |es| && es[i].path == p && es[i].probe.FileOfSize? && es[i].probe.size > Threshold
  {
    SelectionMembership(es, p);
  }

  /** The threshold is strict: a file of exactly 100 MiB is left alone, one byte more is selected. */
  lemma ThresholdIsStrict(path: string)
    requires !Contains(path, Excluded)
    ensures Selection([Entry(path, FileOfSize(Threshold))]) == []
    ensures Selection([Entry(path, FileOfSize(Threshold + 1))]) == [path]
  {
    assert [Entry(path, FileOfSize(Threshold))][..0] == [];
    assert [Entry(path, FileOfSize(Threshold + 1))][..0] == [];
  }

  /** No entry qualifies, so nothing is selected. */
  lemma {:induction false} NothingQualifies(es: seq<Entry>)
    requires forall i :: 0 <= i < |es| ==> Contains(es[i].path, Excluded)
    ensures Selection(es) == [] && !ScanRaises(es)
    decreases |es|
  {
    if es != [] {
      NothingQualifies(es[..|es| - 1]);
    }
  }

  /**
    Nothing listed in a directory whose path contains ".git" (the repository
    metadata directory and everything under it) is selected or even measured.
   */
  lemma MetadataDirectoryIgnored(d: WalkDir)
    requires Contains(d.root, Excluded)
    requires forall j :: 0 <= j < |d.files| ==> !StartsWith(d.files[j].name, "/")
    ensures Selection(Entries(d.root, d.files)) == []
    ensures !ScanRaises(Entries(d.root, d.files))
  {
    var es := Entries(d.root, d.files);
    forall i | 0 <= i < |es| ensures Contains(es[i].path, Excluded) {
      JoinKeepsExcludedMarker(d.root, d.files[i].name);
    }
    NothingQualifies(es);
  }

  /** A file whose own name contains ".git" (.gitignore, .gitattributes, ...) is never selected. */
  lemma ExcludedNamesIgnored(root: string, name: string, probe: Probe)
    requires Contains(name, Excluded)
    ensures Selection(Entries(root, [WalkFile(name, probe)])) == []
  {
    JoinKeepsExcludedMarker(root, name);
    NothingQualifies(Entries(root, [WalkFile(name, probe)]));
  }

  lemma ScanRaisesAppend(a: seq<Entry>, b: seq<Entry>)
    ensures ScanRaises(a + b) <==> ScanRaises(a) || ScanRaises(b)
  {
    if ScanRaises(a) {
      var i :| 0 <= i < |a| && Aborts(a[i]);
      assert (a + b)[i] == a[i];
    }
    if ScanRaises(b) {
      var i :| 0 <= i < |b| && Aborts(b[i]);
      assert (a + b)[|a| + i] == b[i];
    }
    if ScanRaises(a + b) {
      var i :| 0 <= i < |a + b| && Aborts((a + b)[i]);
      if i < |a| { assert a[i] == (a + b)[i]; } else { assert b[i - |a|] == (a + b)[i]; }
    }
  }

  // ---------------------------------------------------------------------------
  // The command script
  // ---------------------------------------------------------------------------

  /** The tracking manifest that `git lfs track` writes. */
  const Manifest: string := ".gitattributes"

  const CommitMessage: string := "Track large files with Git LFS"

  /** The git commands the step issues, each with the argument vector it hands to the process runner. */
  datatype Command =
    | LfsTrack(path: string)    // ["git", "lfs", "track", path]
    | Add(path: string)         // ["git", "add", path]
    | Commit(message: string)   // ["git", "commit", "-m", message]

  /** For each path in order: track it with LFS, then stage it. */
  function TrackAndAdd(paths: seq<string>): (cs: seq<Command>)
    ensures |cs| == 2 * |paths|
    ensures forall j :: 0 <= j < |paths| ==> cs[2 * j] == LfsTrack(paths[j]) && cs[2 * j + 1] == Add(paths[j])
    decreases |paths|
  {
    if paths == [] then []
    else
      var init := paths[..|paths| - 1];
      var cs := TrackAndAdd(init) + [LfsTrack(paths[|paths| - 1]), Add(paths[|paths| - 1])];
      assert forall j :: 0 <= j < |init| ==> init[j] == paths[j];
      cs
  }

  /**
    The whole script for a selection: nothing when the selection is empty,
    otherwise track and stage each path in order, stage the manifest, and
    commit once, as the last command.
   */
  function Plan(paths: seq<string>): (cs: seq<Command>)
    ensures paths == [] ==> cs == []
    ensures paths != [] ==> |cs| == 2 * |paths| + 2
    ensures forall j :: 0 <= j < |paths| ==> cs[2 * j] == LfsTrack(paths[j]) && cs[2 * j + 1] == Add(paths[j])
    ensures paths != [] ==> cs[2 * |paths|] == Add(Manifest) && cs[2 * |paths| + 1] == Commit(CommitMessage)
  {
    if paths == [] then [] else TrackAndAdd(paths) + [Add(Manifest), Commit(CommitMessage)]
  }

  /** The script commits exactly once, and only as its last command. */
  lemma PlanCommitsOnceAtEnd(paths: seq<string>, i: nat)
    requires i < |Plan(paths)|
    ensures Plan(paths)[i].Commit? <==> i == |Plan(paths)| - 1
  {
    var cs := Plan(paths);
    if i < 2 * |paths| {
      var j := i / 2;
      assert cs[2 * j] == LfsTrack(paths[j]) && cs[2 * j + 1] == Add(paths[j]);
      assert i == 2 * j || i == 2 * j + 1;
    }
  }

  /** Every path the script tracks or stages, apart from the manifest, is a selected path. */
  lemma PlanTouchesOnlySelected(paths: seq<string>, c: Command)
    requires c in Plan(paths)
    ensures c.LfsTrack? ==> c.path in paths
    ensures c.Add? && c.path != Manifest ==> c.path in paths
  {
    var cs := Plan(paths);
    var i :| 0 <= i < |cs| && cs[i] == c;
    if i < 2 * |paths| {
      var j := i / 2;
      assert cs[2 * j] == LfsTrack(paths[j]) && cs[2 * j + 1] == Add(paths[j]);
      assert i == 2 * j || i == 2 * j + 1;
      assert paths[j] in paths;
    }
  }

  // ---------------------------------------------------------------------------
  // Running the script
  // ---------------------------------------------------------------------------

  /** The index of the first command among `from .. n-1` that fails, or `n` if none does. */
  function FirstFailure(n: nat, ok: nat -> bool, from: nat): (k: nat)
    requires from <= n
    ensures from <= k <= n
    ensures forall i :: from <= i < k ==> ok(i)
    ensures k < n ==> !ok(k)
    decreases n - from
  {
    if from == n then n else if !ok(from) then from else FirstFailure(n, ok, from + 1)
  }

  /** Which way the step ended; the caller sees none of these as an error. */
  datatype Report =
    | NoLargeFiles            // nothing selected: returned early
    | Committed               // every command succeeded
    | CommandFailed(at: nat)  // command number `at` exited non-zero and ended the step
    | ScanError               // a size query raised during the walk

  /** The commands issued, in order, and how the step ended. */
  datatype Outcome = Outcome(issued: seq<Command>, report: Report)

  /** Run a script, stopping right after the first command that fails. */
  function Run(plan: seq<Command>, ok: nat -> bool): Outcome
  {
    var k := FirstFailure(|plan|, ok, 0);
    if k == |plan| then Outcome(plan, Committed) else Outcome(plan[..k + 1], CommandFailed(k))
  }

  /** What `migrate_large_files_to_lfs` does for a given walk and process runner. */
  function Migration(walk: seq<WalkDir>, ok: nat -> bool): Outcome
  {
    match Scan(Listing(walk))
    case None => Outcome([], ScanError)
    case Some(large) => if large == [] then Outcome([], NoLargeFiles) else Run(Plan(large), ok)
  }

  /**
    The step: scan the walk, then (unless the scan raised) put the
    selection under LFS. Neither a failing size query nor a failing
    command reaches the caller; both only end the step.
   */
  method MigrateLargeFilesToLfs(walk: seq<WalkDir>, ok: nat -> bool) returns (o: Outcome)
    ensures o == Migration(walk, ok)
  {
    var found := FindLargeFiles(walk);
    if found.None? {
      return Outcome([], ScanError);
    }
    o := TrackLargeFiles(found.value, ok);
  }

  /**
    The first half of the step: two nested loops over the walk that
    collect, in order, the path of every qualifying file; a size query
    that raises abandons the scan.
   */
  method FindLargeFiles(walk: seq<WalkDir>) returns (found: Option<seq<string>>)
    ensures found == Scan(Listing(walk))
  {
    var large: seq<string> := [];
    var i := 0;
    while i < |walk|
      invariant 0 <= i <= |walk|
      invariant !ScanRaises(Listing(walk[..i]))
      invariant large == Selection(Listing(walk[..i]))
    {
      var d := walk[i];
      ghost var before := Listing(walk[..i]);
      var j := 0;
      assert before + Entries(d.root, d.files[..0]) == before by {
        assert Entries(d.root, d.files[..0]) == [];
      }
      while j < |d.files|
        invariant 0 <= j <= |d.files|
        invariant !ScanRaises(before + Entries(d.root, d.files[..j]))
        invariant large == Selection(before + Entries(d.root, d.files[..j]))
      {
        var f := d.files[j];
        var path := Join(d.root, f.name);
        ScanStep(before, d.root, d.files, j);
        if !Contains(path, Excluded) {
          match f.probe {
            case NotAFile =>
            case SizeUnavailable =>
              ScanMeetsRaise(walk, i, j);
              return None;
            case FileOfSize(size) =>
              if size > Threshold {
                large := large + [path];
              }
          }
        }
        j := j + 1;
      }
      assert d.files[..j] == d.files;
      ListingStep(walk, i);
      i := i + 1;
    }
    assert walk[..i] == walk;
    return Some(large);
  }

  /**
    The second half of the step: return at once when nothing was
    selected; otherwise issue the script command by command and stop at
    the first command that fails.
   */
  method TrackLargeFiles(large: seq<string>, ok: nat -> bool) returns (o: Outcome)
    ensures o == if large == [] then Outcome([], NoLargeFiles) else Run(Plan(large), ok)
  {
    if large == [] {
      return Outcome([], NoLargeFiles);
    }
    ghost var plan := Plan(large);
    var issued: seq<Command> := [];
    var n := 0;
    while n < |large|
      invariant 0 <= n <= |large|
      invariant |issued| == 2 * n
      invariant issued <= plan
      invariant forall k :: 0 <= k < |issued| ==> ok(k)
    {
      IssueNext(plan, issued, LfsTrack(large[n]));
      issued := issued + [LfsTrack(large[n])];
      if !ok(|issued| - 1) {
        RunStopsAt(plan, ok, issued);
        return Outcome(issued, CommandFailed(|issued| - 1));
      }
      IssueNext(plan, issued, Add(large[n]));
      issued := issued + [Add(large[n])];
      if !ok(|issued| - 1) {
        RunStopsAt(plan, ok, issued);
        return Outcome(issued, CommandFailed(|issued| - 1));
      }
      n := n + 1;
    }
    IssueNext(plan, issued, Add(Manifest));
    issued := issued + [Add(Manifest)];
    if !ok(|issued| - 1) {
      RunStopsAt(plan, ok, issued);
      return Outcome(issued, CommandFailed(|issued| - 1));
    }
    IssueNext(plan, issued, Commit(CommitMessage));
    issued := issued + [Commit(CommitMessage)];
    if !ok(|issued| - 1) {
      RunStopsAt(plan, ok, issued);
      return Outcome(issued, CommandFailed(|issued| - 1));
    }
    RunAllSucceed(plan, ok);
    return Outcome(issued, Committed);
  }

  /** The listing of one more directory of the walk. */
  lemma ListingStep(walk: seq<WalkDir>, i: nat)
    requires i < |walk|
    ensures Listing(walk[..i + 1]) == Listing(walk[..i]) + Entries(walk[i].root, walk[i].files)
  {
    assert walk[..i + 1][..i] == walk[..i];
  }

  /** What the scan knows after one more file of the current directory. */
  lemma ScanStep(before: seq<Entry>, root: string, files: seq<WalkFile>, j: nat)
    requires j < |files|
    ensures var e := Entry(Join(root, files[j].name), files[j].probe);
      && Selection(before + Entries(root, files[..j + 1]))
         == Selection(before + Entries(root, files[..j])) + (if Qualifies(e) then [e.path] else [])
      && (ScanRaises(before + Entries(root, files[..j + 1]))
          <==> ScanRaises(before + Entries(root, files[..j])) || Aborts(e))
  {
    var e := Entry(Join(root, files[j].name), files[j].probe);
    var seen := before + Entries(root, files[..j]);
    assert files[..j + 1] == files[..j] + [files[j]];
    EntriesAppend(root, files[..j], [files[j]]);
    assert Entries(root, [files[j]]) == [e];
    assert seen + [e] == before + Entries(root, files[..j + 1]);
    assert (seen + [e])[..|seen|] == seen;
    ScanRaisesAppend(seen, [e]);
    assert ScanRaises([e]) <==> Aborts(e) by {
      assert [e][0] == e;
    }
  }

  /** A size query that raises at file `j` of directory `i` makes the whole scan raise. */
  lemma ScanMeetsRaise(walk: seq<WalkDir>, i: nat, j: nat)
    requires i < |walk| && j < |walk[i].files|
    requires Aborts(Entry(Join(walk[i].root, walk[i].files[j].name), walk[i].files[j].probe))
    ensures ScanRaises(Listing(walk))
  {
    var d := walk[i];
    assert walk == walk[..i] + [d] + walk[i + 1..];
    ListingAppend(walk[..i] + [d], walk[i + 1..]);
    ListingAppend(walk[..i], [d]);
    assert [d][..0] == [];
    var es := Entries(d.root, d.files);
    assert Listing([d]) == es;
    assert Aborts(es[j]);
    ScanRaisesAppend(Listing(walk[..i]), es);
    ScanRaisesAppend(Listing(walk[..i]) + es, Listing(walk[i + 1..]));
  }

  /** When every command of the plan succeeds, all of it is issued and the step commits. */
  lemma RunAllSucceed(plan: seq<Command>, ok: nat -> bool)
    requires forall k :: 0 <= k < |plan| ==> ok(k)
    ensures Run(plan, ok) == Outcome(plan, Committed)
  {
  }

  /** Issuing the next command of the plan keeps what was issued a prefix of the plan. */
  lemma IssueNext(plan: seq<Command>, issued: seq<Command>, c: Command)
    requires issued <= plan && |issued| < |plan| && plan[|issued|] == c
    ensures issued + [c] <= plan
  {
    assert plan[..|issued| + 1] == plan[..|issued|] + [c];
  }

  /** Commands issued so far follow the plan, all but the last succeeded, and the last failed. */
  lemma RunStopsAt(plan: seq<Command>, ok: nat -> bool, issued: seq<Command>)
    requires issued <= plan && issued != []
    requires forall k :: 0 <= k < |issued| - 1 ==> ok(k)
    requires !ok(|issued| - 1)
    ensures Run(plan, ok) == Outcome(issued, CommandFailed(|issued| - 1))
  {
    var k := FirstFailure(|plan|, ok, 0);
    assert k == |issued| - 1;
    assert plan[..k + 1] == issued;
  }

  // ---------------------------------------------------------------------------
  // Properties of the step
  // ---------------------------------------------------------------------------

  /** With nothing selected, no git command at all is issued, so in particular nothing is committed. */
  lemma NoSelectionNoCommands(walk: seq<WalkDir>, ok: nat -> bool)
    requires Scan(Listing(walk)) == Some([])
    ensures Migration(walk, ok) == Outcome([], NoLargeFiles)
  {
  }

  /** A failing size query ends the step before any command is issued. */
  lemma ScanErrorNoCommands(walk: seq<WalkDir>, ok: nat -> bool)
    ensures Migration(walk, ok).issued == [] <==> !Scan(Listing(walk)).Some? || Scan(Listing(walk)).value == []
    ensures Migration(walk, ok).report == ScanError <==> ScanRaises(Listing(walk))
  {
    var es := Listing(walk);
    if !ScanRaises(es) && Selection(es) != [] {
      var plan := Plan(Selection(es));
      var k := FirstFailure(|plan|, ok, 0);
      assert |Run(plan, ok).issued| == (if k == |plan| then |plan| else k + 1);
    }
  }

  /**
    The commands issued are a prefix of the script for the selection;
    every one of them but the last succeeded; the step reports success
    exactly when the whole script ran and every command succeeded, and
    otherwise names the failing command, which is the last one issued.
   */
  lemma IssuedFollowsPlan(walk: seq<WalkDir>, ok: nat -> bool, large: seq<string>)
    requires Scan(Listing(walk)) == Some(large)
    ensures var o := Migration(walk, ok);
      && o.issued <= Plan(large)
      && (forall k :: 0 <= k < |o.issued| - 1 ==> ok(k))
      && (o.report == Committed <==> large != [] && o.issued == Plan(large) && forall k :: 0 <= k < |o.issued| ==> ok(k))
      && (o.report.CommandFailed? ==> o.report.at == |o.issued| - 1 && !ok(o.report.at))
  {
    if large != [] {
      var plan := Plan(large);
      var k := FirstFailure(|plan|, ok, 0);
      if k < |plan| {
        assert !ok(k);
        assert plan[..k + 1] <= plan;
      }
    }
  }

  /**
    A commit is issued only as the last command, and only after every
    selected path has been tracked and staged and the manifest staged: a
    failure before that leaves the script without a commit.
   */
  lemma CommitOnlyAtEnd(walk: seq<WalkDir>, ok: nat -> bool, i: nat)
    requires var o := Migration(walk, ok); i < |o.issued| && o.issued[i].Commit?
    ensures Scan(Listing(walk)).Some? && Scan(Listing(walk)).value != []
    ensures var o := Migration(walk, ok); i == |o.issued| - 1 && o.issued == Plan(Scan(Listing(walk)).value)
    ensures forall k :: 0 <= k < i ==> ok(k)
  {
    var large := Scan(Listing(walk)).value;
    var plan := Plan(large);
    var o := Migration(walk, ok);
    assert o.issued <= plan;
    assert o.issued[i] == plan[i];
    PlanCommitsOnceAtEnd(large, i);
  }

  /** On success the step issued exactly 2n+2 commands for n selected paths. */
  lemma CommittedCount(walk: seq<WalkDir>, ok: nat -> bool)
    requires Migration(walk, ok).report == Committed
    ensures Scan(Listing(walk)).Some?
    ensures |Migration(walk, ok).issued| == 2 * |Scan(Listing(walk)).value| + 2
  {
    IssuedFollowsPlan(walk, ok, Scan(Listing(walk)).value);
  }

  /**
    Every path the step tracks or stages, other than the manifest, belongs
    to a regular file of the walk that is over 100 MiB and whose path has
    no ".git" in it.
   */
  lemma TrackedPathsQualify(walk: seq<WalkDir>, ok: nat -> bool, c: Command)
    requires c in Migration(walk, ok).issued
    requires c.LfsTrack? || (c.Add? && c.path != Manifest)
    ensures !Contains(c.path, Excluded)
    ensures exists i :: 0 <= i < |Listing(walk)| && Listing(walk)[i].path == c.path && Qualifies(Listing(walk)[i])
  {
    var large := Scan(Listing(walk)).value;
    var plan := Plan(large);
    var o := Migration(walk, ok);
    assert o.issued <= plan;
    var i :| 0 <= i < |o.issued| && o.issued[i] == c;
    assert plan[i] == c;
    PlanTouchesOnlySelected(large, c);
    SelectionMembership(Listing(walk), c.path);
  }

  /** A relative name joined to "." gets "./" in front of it. */
  lemma JoinToDot(name: string)
    requires name != [] && name[0] != '/'
    ensures Join(".", name) == "./" + name
  {
    assert !StartsWith(name, "/") by { assert name[..1][0] == name[0]; }
  }

  /** The listing of a walk of one directory holding two files. */
  lemma ListingOfTwoFiles(root: string, f: WalkFile, g: WalkFile)
    ensures Listing([WalkDir(root, [f, g])]) == [Entry(Join(root, f.name), f.probe), Entry(Join(root, g.name), g.probe)]
  {
    var walk := [WalkDir(root, [f, g])];
    assert walk[..0] == [];
    var es := Entries(root, [f, g]);
    assert es[0] == Entry(Join(root, f.name), f.probe) && es[1] == Entry(Join(root, g.name), g.probe);
  }

  /** The scan of a listing of two entries. */
  lemma ScanOfTwo(a: Entry, b: Entry)
    ensures Scan([a, b]) ==
      if Aborts(a) || Aborts(b) then None
      else Some((if Qualifies(a) then [a.path] else []) + (if Qualifies(b) then [b.path] else []))
  {
    assert [a, b][..1] == [a] && [a][..0] == [];
    if Aborts(a) {
      assert [a, b][0] == a;
    } else if Aborts(b) {
      assert [a, b][1] == b;
    } else {
      forall i | 0 <= i < 2 ensures !Aborts([a, b][i]) { }
      assert !ScanRaises([a, b]);
      assert Selection([a]) == (if Qualifies(a) then [a.path] else []);
      assert Selection([a, b]) == Selection([a]) + (if Qualifies(b) then [b.path] else []);
    }
  }

  /** The plan for a single selected path. */
  lemma PlanOfOne(path: string)
    ensures Plan([path]) == [LfsTrack(path), Add(path), Add(Manifest), Commit(CommitMessage)]
  {
    var p := Plan([path]);
    assert p[0] == LfsTrack(path) && p[1] == Add(path);
  }

  /** A file at or under the threshold is neither selected nor a reason to raise. */
  lemma SmallFileSkipped(e: Entry)
    requires e.probe.FileOfSize? && e.probe.size <= Threshold
    ensures !Qualifies(e) && !Aborts(e)
  {
  }

  /**
    A sufficient condition for selection that is quick to check on literal
    paths; it only serves the scenario lemmas below. The selection rule
    itself is SelectionMembership.
   */
  lemma LargeFileSelected(e: Entry)
    requires e.probe.FileOfSize? && e.probe.size > Threshold && 'g' !in e.path
    ensures Qualifies(e)
  {
    MissingCharNotContained(e.path, Excluded, 1);
  }

  /** The scan of two entries of which only the second is selected. */
  lemma ScanSelectsSecond(a: Entry, b: Entry)
    requires !Qualifies(a) && !Aborts(a) && Qualifies(b)
    ensures Scan([a, b]) == Some([b.path])
  {
    ScanOfTwo(a, b);
    assert !Aborts(b);
    assert [] + [b.path] == [b.path];
  }

  /** A working tree with a 10 MiB "a.txt" and a 150 MiB "b.bin" at its top. */
  function MixedTree(): seq<WalkDir>
  {
    [WalkDir(".", [WalkFile("a.txt", FileOfSize(10485760)), WalkFile("b.bin", FileOfSize(157286400))])]
  }

  /** Of the mixed tree, only "./b.bin" is selected. */
  lemma MixedTreeScan()
    ensures Scan(Listing(MixedTree())) == Some(["./b.bin"])
  {
    var a, b := Entry("./a.txt", FileOfSize(10485760)), Entry("./b.bin", FileOfSize(157286400));
    assert Listing(MixedTree()) == [a, b] by {
      JoinToDot("a.txt");
      JoinToDot("b.bin");
      assert "./" + "a.txt" == "./a.txt" && "./" + "b.bin" == "./b.bin";
      ListingOfTwoFiles(".", WalkFile("a.txt", FileOfSize(10485760)), WalkFile("b.bin", FileOfSize(157286400)));
    }
    SmallFileSkipped(a);
    LargeFileSelected(b);
    ScanSelectsSecond(a, b);
  }

  /**
    With every command succeeding, the step tracks and stages "./b.bin",
    stages the manifest and commits.
   */
  lemma OneLargeFileExample(ok: nat -> bool)
    requires forall k :: 0 <= k < 4 ==> ok(k)
    ensures Migration(MixedTree(), ok) == Outcome([LfsTrack("./b.bin"), Add("./b.bin"), Add(Manifest), Commit(CommitMessage)], Committed)
  {
    MixedTreeScan();
    PlanOfOne("./b.bin");
    RunAllSucceed(Plan(["./b.bin"]), ok);
  }

  /** A working tree with no file over the threshold: no command, no commit. */
  lemma NoLargeFileExample(ok: nat -> bool)
    ensures var walk := [WalkDir(".", [WalkFile("a.txt", FileOfSize(1024)), WalkFile("main.c", FileOfSize(512))])];
      Migration(walk, ok) == Outcome([], NoLargeFiles)
  {
    JoinToDot("a.txt");
    JoinToDot("main.c");
    assert "./" + "a.txt" == "./a.txt" && "./" + "main.c" == "./main.c";
    ListingOfTwoFiles(".", WalkFile("a.txt", FileOfSize(1024)), WalkFile("main.c", FileOfSize(512)));
    var a, b := Entry("./a.txt", FileOfSize(1024)), Entry("./main.c", FileOfSize(512));
    var walk := [WalkDir(".", [WalkFile("a.txt", FileOfSize(1024)), WalkFile("main.c", FileOfSize(512))])];
    assert Listing(walk) == [a, b];
    ScanOfTwo(a, b);
    assert Scan([a, b]) == Some([]);
  }
}
