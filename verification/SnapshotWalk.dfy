/** The bounded walk a source snapshot makes, and what comparing snapshots says about a test report. */
module SnapshotWalk {
  import opened Wrappers
  import opened SnapshotFraming

  type Name = seq<Point>

  /** What the file system holds under a name when the walk looks. `size` is what the listing says; `read`
      is what opening returns, absent when it fails. `Gone` cannot even be looked at; a folder's entries are
      in name order. */
  datatype Node =
    | Regular(size: nat, read: Option<seq<Byte>>)
    | Folder(readable: bool, entries: seq<Entry>)
    | Link
    | Special
    | Gone
  datatype Entry = Entry(name: Name, node: Node)

  datatype Issue = Limit | Symlink | Unreadable

  const MAX_DEPTH: nat := 24
  const MAX_ENTRIES: nat := 8192
  const MAX_FILES: nat := 4096
  const MAX_FILE: nat := 8 * 1024 * 1024
  const MAX_BYTES: nat := 64 * 1024 * 1024

  function Points(s: string): Name
    requires forall c <- s :: c < 128 as char
  {
    seq(|s|, i requires 0 <= i < |s| => s[i] as Point)
  }

  predicate Starts(name: Name, prefix: Name) {
    |prefix| <= |name| && name[..|prefix|] == prefix
  }

  predicate Ends(name: Name, suffix: Name) {
    |suffix| <= |name| && name[|name| - |suffix|..] == suffix
  }

  /** The prefix is the whole name or is followed by a dot. */
  predicate Family(name: Name, prefix: Name) {
    Starts(name, prefix) && (|name| == |prefix| || name[|prefix|] == 46)
  }

  const EXCLUDED: seq<string> := ["node_modules", ".git", ".vitest",
                                  ".cossack", ".wrangler", ".cache", ".turbo", ".next",
    ".output", "dist", "build", "coverage", "test-results", "playwright-report"]

  predicate Listed(name: Name) {
    exists i :: 0 <= i < |EXCLUDED| && Plain(EXCLUDED[i]) && name == Points(EXCLUDED[i])
  }

  predicate Excluded(name: Name) {
    || Listed(name)
    || Family(name, Points(".env")) || Family(name, Points(".dev.vars"))
    || Ends(name, Points(".pem")) || Ends(name, Points(".key"))
    || Ends(name, Points(".p12")) || Ends(name, Points(".pfx"))
  }

  predicate Plain(s: string) {
    forall c <- s :: c < 128 as char
  }

  // ---------- The walk ----------

  /** Everything the walk updates: the hashed stream, its counters, the issue found, and `thrown` when an
      exception ended it. `covered` lists the files hashed. */
  datatype Progress = Progress(
    stream: seq<Byte>, covered: seq<File>, files: nat, bytes: nat, entries: nat, issue: Option<Issue>, thrown: bool)

  predicate Stopped(p: Progress) {
    p.issue.Some? || p.thrown
  }

  function Stop(p: Progress, issue: Issue): Progress {
    p.(issue := Some(issue))
  }

  function Min(a: nat, b: nat): nat {
    if a < b then a else b
  }

  function VisitFile(f: Node, path: Name, p: Progress): Progress
    requires f.Regular? && p.bytes <= MAX_BYTES
  {
    if p.files + 1 > MAX_FILES || f.size > MAX_FILE || p.bytes + f.size > MAX_BYTES
    then Stop(p.(files := p.files + 1), Limit)
    else if f.read.None? || |f.read.value| > Min(MAX_FILE, MAX_BYTES - p.bytes)
      then p.(files := p.files + 1, thrown := true)
    else
      var file := File(path, f.read.value);
      p.(stream := p.stream + Header(path, |file.data|) + file.data, covered := p.covered + [file],
         files := p.files + 1, bytes := p.bytes + |file.data|)
  }

  function Walk(folder: Node, prefix: Name, depth: nat, p: Progress): (r: Progress)
    requires folder.Folder? && p.bytes <= MAX_BYTES
    ensures r.bytes <= MAX_BYTES
    decreases folder, 1
  {
    if depth > MAX_DEPTH then Stop(p, Limit)
    else if !folder.readable then p.(thrown := true)
    else if p.entries + |folder.entries| > MAX_ENTRIES then Stop(p.(entries := MAX_ENTRIES + 1), Limit)
    else WalkEntries(folder.entries, 0, prefix, depth, p.(entries := p.entries + |folder.entries|))
  }

  function WalkEntries(entries: seq<Entry>, i: nat, prefix: Name, depth: nat, p: Progress): (r: Progress)
    requires i <= |entries| && p.bytes <= MAX_BYTES
    ensures r.bytes <= MAX_BYTES
    decreases entries, |entries| - i, 0
  {
    if i == |entries| then p
    else if Excluded(entries[i].name) then WalkEntries(entries, i + 1, prefix, depth, p)
    else
      var next := WalkOne(entries[i], prefix, depth, p);
      if Stopped(next) then next else WalkEntries(entries, i + 1, prefix, depth, next)
  }

  function WalkOne(entry: Entry, prefix: Name, depth: nat, p: Progress): (r: Progress)
    requires p.bytes <= MAX_BYTES
    ensures r.bytes <= MAX_BYTES
    decreases entry
  {
    match entry.node
    case Gone => p.(thrown := true)
    case Link => Stop(p, Symlink)
    case Folder(_, _) => Walk(entry.node, prefix + entry.name + [47], depth + 1, p)
    case Regular(_, _) => VisitFile(entry.node, prefix + entry.name, p)
    case Special => Stop(p, Unreadable)
  }

  const NOTHING: Progress := Progress([], [], 0, 0, 0, None, false)

  datatype Snapshot = Complete(digest: seq<Byte>, files: nat) | Unknown(reason: Issue, files: nat)

  /** The digest is taken to be as good as the stream it is made of. */
  function TakeSnapshot(root: Node): Snapshot {
    if !root.Folder? then Unknown(Unreadable, 0)
    else
      var p := Walk(root, [], 0, NOTHING);
      if p.thrown then Unknown(Unreadable, p.files)
      else if p.issue.Some? then Unknown(p.issue.value, p.files)
      else Complete(p.stream, p.files)
  }

  // ---------- What a complete snapshot covers ----------

  /** A file as seen: its path, its announced size and what was read. */
  datatype Seen = Seen(path: Name, size: nat, read: Option<seq<Byte>>)

  /** Every file below, in order, skipping excluded names. */
  function Listing(entries: seq<Entry>, i: nat, prefix: Name): seq<Seen>
    requires i <= |entries|
    decreases entries, |entries| - i
  {
    if i == |entries| then []
    else if Excluded(entries[i].name) then Listing(entries, i + 1, prefix)
    else ListingOne(entries[i], prefix) + Listing(entries, i + 1, prefix)
  }

  function ListingOne(entry: Entry, prefix: Name): seq<Seen>
    decreases entry
  {
    match entry.node
    case Folder(_, entries) => Listing(entries, 0, prefix + entry.name + [47])
    case Regular(size, read) => [Seen(prefix + entry.name, size, read)]
    case _ => []
  }

  /** Entries counted in the folders below. */
  function CountBelow(entries: seq<Entry>, i: nat): nat
    requires i <= |entries|
    decreases entries, |entries| - i
  {
    if i == |entries| then 0
    else (if Excluded(entries[i].name) then 0 else CountOne(entries[i])) + CountBelow(entries, i + 1)
  }

  function CountOne(entry: Entry): nat
    decreases entry
  {
    if entry.node.Folder? then |entry.node.entries| + CountBelow(entry.node.entries, 0) else 0
  }

  /** Below, leaving out excluded names, there are only readable folders no deeper than allowed and regular
      files. */
  predicate Clean(entries: seq<Entry>, i: nat, depth: nat)
    requires i <= |entries|
    decreases entries, |entries| - i
  {
    i == |entries| || ((Excluded(entries[i].name) || CleanOne(entries[i], depth)) && Clean(entries, i + 1, depth))
  }

  predicate CleanOne(entry: Entry, depth: nat)
    decreases entry
  {
    match entry.node
    case Folder(readable, entries) => readable && depth < MAX_DEPTH && Clean(entries, 0, depth + 1)
    case Regular(_, _) => true
    case _ => false
  }

  function Total(files: seq<File>): nat {
    if files == [] then 0 else Total(files[..|files| - 1]) + |files[|files| - 1].data|
  }

  /** Every file was read, and file by file the limits hold after those already covered. */
  predicate Within(covered: seq<File>, list: seq<Seen>)
    decreases list
  {
    list == [] ||
    (var f := list[0];
     && |covered| < MAX_FILES && f.size <= MAX_FILE && Total(covered) + f.size <= MAX_BYTES
     && f.read.Some? && |f.read.value| <= MAX_FILE && Total(covered) + |f.read.value| <= MAX_BYTES
     && Within(covered + [File(f.path, f.read.value)], list[1..]))
  }

  function Read(list: seq<Seen>): seq<File> {
    if list == [] then []
    else (if list[0].read.Some? then [File(list[0].path, list[0].read.value)] else []) + Read(list[1..])
  }

  /** The counters say what has been covered, within the limits. */
  ghost predicate Sound(p: Progress) {
    && p.stream == Stream(p.covered) && p.bytes == Total(p.covered) && p.files == |p.covered|
    && p.files <= MAX_FILES && p.bytes <= MAX_BYTES && p.entries <= MAX_ENTRIES && !Stopped(p)
  }

  lemma {:induction false} ReadBoth(a: seq<Seen>, b: seq<Seen>)
    ensures Read(a + b) == Read(a) + Read(b)
    decreases a
  {
    if a == [] {
      assert a + b == b;
    } else {
      assert (a + b)[1..] == a[1..] + b && (a + b)[0] == a[0];
      ReadBoth(a[1..], b);
      var first := if a[0].read.Some? then [File(a[0].path, a[0].read.value)] else [];
      assert Read(a + b) == first + Read(a[1..] + b) && Read(a) == first + Read(a[1..]);
      hide Read;
      Appends(first, Read(a[1..]), Read(b));
    }
  }

  lemma {:induction false} WithinBoth(covered: seq<File>, a: seq<Seen>, b: seq<Seen>)
    ensures Within(covered, a + b) <==> Within(covered, a) && Within(covered + Read(a), b)
    decreases a
  {
    if a == [] {
      assert a + b == b && covered + Read(a) == covered;
    } else {
      assert (a + b)[1..] == a[1..] + b && (a + b)[0] == a[0];
      if a[0].read.Some? {
        var file := File(a[0].path, a[0].read.value);
        WithinBoth(covered + [file], a[1..], b);
        Appends(covered, [file], Read(a[1..]));
        assert Read(a) == [file] + Read(a[1..]);
      }
    }
  }

  /** The walk ends without a stop exactly when what it met was clean and within the limits; then it has
      covered exactly that. */
  ghost predicate Exactly(p: Progress, r: Progress, clean: bool, count: nat, list: seq<Seen>) {
    && (!Stopped(r) <==> clean && p.entries + count <= MAX_ENTRIES && Within(p.covered, list))
    && (!Stopped(r) ==> Sound(r) && r.covered == p.covered + Read(list) && r.entries == p.entries + count)
  }

  lemma FileExactly(f: Node, path: Name, p: Progress)
    requires f.Regular? && Sound(p)
    ensures Exactly(p, VisitFile(f, path, p), true, 0, [Seen(path, f.size, f.read)])
  {
    var list := [Seen(path, f.size, f.read)];
    if f.read.Some? {
      var file := File(path, f.read.value);
      assert Within(p.covered + [file], list[1..]);
      assert (p.covered + [file])[..|p.covered|] == p.covered;
      assert Read(list) == [file] + Read(list[1..]) == [file];
      assert p.stream + Header(path, |file.data|) + file.data == p.stream + Frame(file);
    }
  }

  lemma {:induction false} WalkExactly(folder: Node, prefix: Name, depth: nat, p: Progress)
    requires folder.Folder? && Sound(p)
    ensures Exactly(p, Walk(folder, prefix, depth, p),
                    folder.readable && depth <= MAX_DEPTH && Clean(folder.entries, 0, depth),
                    |folder.entries| + CountBelow(folder.entries, 0), Listing(folder.entries, 0, prefix))
    decreases folder, 1
  {
    if depth <= MAX_DEPTH && p.entries + |folder.entries| <= MAX_ENTRIES && folder.readable {
      EntriesExactly(folder.entries, 0, prefix, depth, p.(entries := p.entries + |folder.entries|));
    }
  }

  lemma {:induction false} EntriesExactly(entries: seq<Entry>, i: nat, prefix: Name, depth: nat, p: Progress)
    requires i <= |entries| && Sound(p)
    ensures Exactly(p, WalkEntries(entries, i, prefix, depth, p), Clean(entries, i, depth),
                    CountBelow(entries, i), Listing(entries, i, prefix))
    decreases entries, |entries| - i, 0
  {
    if i == |entries| {
      assert p.covered + Read([]) == p.covered;
    } else if Excluded(entries[i].name) {
      EntriesExactly(entries, i + 1, prefix, depth, p);
    } else {
      hide Excluded, Sound;
      OneExactly(entries[i], prefix, depth, p);
      var next := WalkOne(entries[i], prefix, depth, p);
      WithinBoth(p.covered, ListingOne(entries[i], prefix), Listing(entries, i + 1, prefix));
      ReadBoth(ListingOne(entries[i], prefix), Listing(entries, i + 1, prefix));
      if !Stopped(next) {
        EntriesExactly(entries, i + 1, prefix, depth, next);
        Appends(p.covered, Read(ListingOne(entries[i], prefix)), Read(Listing(entries, i + 1, prefix)));
      }
    }
  }

  lemma Appends(a: seq<File>, b: seq<File>, c: seq<File>)
    ensures a + b + c == a + (b + c)
  {
  }

  lemma {:induction false} OneExactly(entry: Entry, prefix: Name, depth: nat, p: Progress)
    requires Sound(p)
    ensures Exactly(p, WalkOne(entry, prefix, depth, p), CleanOne(entry, depth),
                    CountOne(entry), ListingOne(entry, prefix))
    decreases entry
  {
    match entry.node
    case Folder(_, _) => WalkExactly(entry.node, prefix + entry.name + [47], depth + 1, p);
    case Regular(_, _) => FileExactly(entry.node, prefix + entry.name, p);
    case _ =>
  }

  /** The tree can be covered. */
  predicate Coverable(root: Node) {
    && root.Folder? && root.readable && Clean(root.entries, 0, 0)
    && |root.entries| + CountBelow(root.entries, 0) <= MAX_ENTRIES
    && Within([], Listing(root.entries, 0, []))
  }

  /** A snapshot is complete exactly when the tree can be covered; its digest is then that of the whole
      listing, which has at most 4096 files and 64 MiB. */
  lemma CompleteExactly(root: Node)
    ensures TakeSnapshot(root).Complete? <==> Coverable(root)
    ensures Coverable(root) ==>
      var list := Read(Listing(root.entries, 0, []));
      && TakeSnapshot(root) == Complete(Stream(list), |list|) && |list| <= 4096 && Total(list) <= 67108864
  {
    if root.Folder? {
      assert Sound(NOTHING);
      WalkExactly(root, [], 0, NOTHING);
      assert [] + Read(Listing(root.entries, 0, [])) == Read(Listing(root.entries, 0, []));
    }
  }

  // ---------- Which trees are covered, in terms of the tree ----------

  /** Below, leaving out excluded names, there are only readable folders and regular files. */
  predicate Plainly(entries: seq<Entry>, i: nat)
    requires i <= |entries|
    decreases entries, |entries| - i
  {
    i == |entries| || ((Excluded(entries[i].name) || PlainOne(entries[i])) && Plainly(entries, i + 1))
  }

  predicate PlainOne(entry: Entry)
    decreases entry
  {
    match entry.node
    case Folder(readable, entries) => readable && Plainly(entries, 0)
    case Regular(_, _) => true
    case _ => false
  }

  /** How deep folders are nested below, leaving out excluded names. */
  function Levels(entries: seq<Entry>, i: nat): nat
    requires i <= |entries|
    decreases entries, |entries| - i
  {
    if i == |entries| then 0
    else if Excluded(entries[i].name) || LevelsOne(entries[i]) < Levels(entries, i + 1) then Levels(entries, i + 1)
    else LevelsOne(entries[i])
  }

  function LevelsOne(entry: Entry): nat
    decreases entry
  {
    if entry.node.Folder? then 1 + Levels(entry.node.entries, 0) else 0
  }

  lemma {:induction false} CleanMeans(entries: seq<Entry>, i: nat, depth: nat)
    requires i <= |entries| && depth <= 24
    ensures Clean(entries, i, depth) <==> Plainly(entries, i) && (depth + Levels(entries, i) <= 24)
    decreases entries, |entries| - i
  {
    if i < |entries| {
      CleanMeans(entries, i + 1, depth);
      CleanOneMeans(entries[i], depth);
      hide Excluded, CleanOne, PlainOne, LevelsOne;
    }
  }

  lemma {:induction false} CleanOneMeans(entry: Entry, depth: nat)
    requires depth <= 24
    ensures CleanOne(entry, depth) <==> PlainOne(entry) && depth + LevelsOne(entry) <= 24
    decreases entry
  {
    if entry.node.Folder? && depth < 24 {
      CleanMeans(entry.node.entries, 0, depth + 1);
    }
  }

  /** A file that fits behind those covered before it: announced and read with at most 8 MiB, and no more
      than 64 MiB with the others. */
  predicate FitsBehind(before: seq<File>, f: Seen) {
    && f.read.Some? && f.size <= 8388608 && |f.read.value| <= 8388608
    && Total(before) + f.size <= 67108864 && Total(before) + |f.read.value| <= 67108864
  }

  lemma {:induction false} WithinMeans(covered: seq<File>, list: seq<Seen>)
    requires |covered| <= 4096
    ensures Within(covered, list) <==>
            |covered| + |list| <= 4096 && forall k :: 0 <= k < |list| ==> FitsBehind(covered + Read(list[..k]), list[k])
    decreases list
  {
    if list != [] {
      var f := list[0];
      assert list[..0] == [] && covered + Read(list[..0]) == covered;
      assert FitsBehind(covered, f) <==> FitsBehind(covered + Read(list[..0]), list[0]);
      if FitsBehind(covered, f) && |covered| < 4096 {
        var next := covered + [File(f.path, f.read.value)];
        WithinMeans(next, list[1..]);
        forall k | 0 <= k < |list| - 1 ensures next + Read(list[1..][..k]) == covered + Read(list[..k + 1]) {
          ReadFrom(covered, list, k);
        }
        hide *;
        FitShifted(covered, next, list);
      }
    }
  }

  lemma ReadFrom(covered: seq<File>, list: seq<Seen>, k: nat)
    requires k < |list| && list[0].read.Some?
    ensures covered + [File(list[0].path, list[0].read.value)] + Read(list[1..][..k]) == covered + Read(list[..k + 1])
  {
    assert list[..k + 1][1..] == list[1..][..k] && list[..k + 1][0] == list[0];
    Appends(covered, [File(list[0].path, list[0].read.value)], Read(list[1..][..k]));
  }

  lemma FitShifted(covered: seq<File>, next: seq<File>, list: seq<Seen>)
    requires list != [] && FitsBehind(covered + Read(list[..0]), list[0])
    requires forall k :: 0 <= k < |list| - 1 ==> next + Read(list[1..][..k]) == covered + Read(list[..k + 1])
    ensures (forall k :: 0 <= k < |list| - 1 ==> FitsBehind(next + Read(list[1..][..k]), list[1..][k])) <==>
            (forall k :: 0 <= k < |list| ==> FitsBehind(covered + Read(list[..k]), list[k]))
  {
    hide *;
    if forall k :: 0 <= k < |list| - 1 ==> FitsBehind(next + Read(list[1..][..k]), list[1..][k]) {
      forall k | 0 <= k < |list| ensures FitsBehind(covered + Read(list[..k]), list[k]) {
        if k > 0 {
          assert FitsBehind(next + Read(list[1..][..k - 1]), list[1..][k - 1]);
        }
      }
    }
    if forall k :: 0 <= k < |list| ==> FitsBehind(covered + Read(list[..k]), list[k]) {
      forall k | 0 <= k < |list| - 1 ensures FitsBehind(next + Read(list[1..][..k]), list[1..][k]) {
        assert FitsBehind(covered + Read(list[..k + 1]), list[k + 1]);
      }
    }
  }

  /** A snapshot is complete exactly when the root is a readable folder with nothing but readable folders, at
      most 24 deep, and at most 4096 files below, at most 8192 entries are in the folders, and each file fits
      behind those before it. */
  lemma CoveredExactly(root: Node)
    ensures TakeSnapshot(root).Complete? <==>
            && root.Folder? && root.readable && Plainly(root.entries, 0) && Levels(root.entries, 0) <= 24
            && |root.entries| + CountBelow(root.entries, 0) <= 8192
            && var list := Listing(root.entries, 0, []);
            && |list| <= 4096 && forall k :: 0 <= k < |list| ==> FitsBehind(Read(list[..k]), list[k])
  {
    CompleteExactly(root);
    if root.Folder? {
      CleanMeans(root.entries, 0, 0);
      var list := Listing(root.entries, 0, []);
      WithinMeans([], list);
      hide *;
      assert forall k :: 0 <= k < |list| ==> [] + Read(list[..k]) == Read(list[..k]);
    }
  }

  lemma PointsEqual(a: string, b: string)
    requires Plain(a) && Plain(b)
    ensures Points(a) == Points(b) <==> a == b
  {
    assert |Points(a)| == |a| && |Points(b)| == |b|;
    assert forall i :: 0 <= i < |a| ==> a[i] == Points(a)[i] as char;
    assert forall i :: 0 <= i < |b| ==> b[i] == Points(b)[i] as char;
  }

  lemma PointsOfPart(a: string, k: nat)
    requires Plain(a) && k <= |a|
    ensures Plain(a[..k]) && Points(a)[..k] == Points(a[..k])
    ensures Plain(a[k..]) && Points(a)[k..] == Points(a[k..])
  {
    assert forall c :: c in a[k..] ==> c in a;
    assert forall c :: c in a[..k] ==> c in a;
  }

  lemma PointsMean(a: string, b: string)
    requires Plain(a) && Plain(b)
    ensures Points(a) == Points(b) <==> a == b
    ensures Starts(Points(a), Points(b)) <==> b <= a
    ensures Ends(Points(a), Points(b)) <==> |b| <= |a| && a[|a| - |b|..] == b
  {
    PointsEqual(a, b);
    if |b| <= |a| {
      PointsOfPart(a, |b|);
      PointsEqual(a[..|b|], b);
      PointsOfPart(a, |a| - |b|);
      PointsEqual(a[|a| - |b|..], b);
      assert |Points(a)| == |a| && |Points(b)| == |b|;
      hide Plain, Points;
    }
  }

  lemma FamilyMeans(a: string, b: string)
    requires Plain(a) && Plain(b)
    ensures Family(Points(a), Points(b)) <==> a == b || b + "." <= a
  {
    PointsMean(a, b);
    if |b| < |a| {
      assert Points(a)[|b|] == 46 <==> a[|b|] == '.';
    }
  }

  lemma PlainParts()
    ensures Plain(".env") && Plain(".dev.vars") && Plain(".pem") && Plain(".key") && Plain(".p12") && Plain(".pfx")
  {
  }

  /** Left out are the listed folders, `.env` and `.dev.vars` alone or before a dot, and key files. */
  lemma ExcludedExactly(s: string)
    requires Plain(s)
    ensures Excluded(Points(s)) <==>
            || s in EXCLUDED
            || s == ".env" || ".env." <= s || s == ".dev.vars" || ".dev.vars." <= s
            || EndsIn(s, ".pem") || EndsIn(s, ".key") || EndsIn(s, ".p12") || EndsIn(s, ".pfx")
  {
    PlainParts();
    assert ".env" + "." == ".env." && ".dev.vars" + "." == ".dev.vars.";
    FamilyMeans(s, ".env");
    FamilyMeans(s, ".dev.vars");
    PointsMean(s, ".pem");
    PointsMean(s, ".key");
    PointsMean(s, ".p12");
    PointsMean(s, ".pfx");
    ListedMeans(s);
    hide Listed, Points, Family, Ends, Plain;
  }

  predicate EndsIn(s: string, suffix: string) {
    |suffix| <= |s| && s[|s| - |suffix|..] == suffix
  }

  lemma ListedMeans(s: string)
    requires Plain(s)
    ensures Listed(Points(s)) <==> s in EXCLUDED
  {
    hide Points;
    forall i | 0 <= i < |EXCLUDED| && Plain(EXCLUDED[i])
      ensures Points(s) == Points(EXCLUDED[i]) <==> s == EXCLUDED[i]
    {
      PointsMean(s, EXCLUDED[i]);
    }
  }

  /** Two complete snapshots with one digest are of the same files with the same contents. */
  lemma DigestDetermines(a: Node, b: Node)
    requires Coverable(a) && Coverable(b)
    ensures TakeSnapshot(a).Complete? && TakeSnapshot(b).Complete?
    ensures TakeSnapshot(a).digest == TakeSnapshot(b).digest <==>
            Read(Listing(a.entries, 0, [])) == Read(Listing(b.entries, 0, []))
  {
    CompleteExactly(a);
    CompleteExactly(b);
    if TakeSnapshot(a).digest == TakeSnapshot(b).digest {
      StreamDecodesUniquely(Read(Listing(a.entries, 0, [])), Read(Listing(b.entries, 0, [])));
    }
  }

  // ---------- The walk, step by step ----------

  class Walker {
    var stream: seq<Byte>
    var files: nat
    var bytes: nat
    var entries: nat
    var issue: Option<Issue>
    var thrown: bool
    ghost var covered: seq<File>

    ghost function State(): Progress
      reads this
    {
      Progress(stream, covered, files, bytes, entries, issue, thrown)
    }

    constructor ()
      ensures State() == NOTHING
    {
      stream, files, bytes, entries, issue, thrown, covered := [], 0, 0, 0, None, false, [];
    }

    method WalkFolder(folder: Node, prefix: Name, depth: nat)
      requires folder.Folder? && bytes <= MAX_BYTES && entries <= MAX_ENTRIES && !Stopped(State())
      modifies this
      ensures State() == Walk(folder, prefix, depth, old(State()))
      ensures !Stopped(State()) ==> entries <= MAX_ENTRIES
      ensures depth > 24 ==> issue == Some(Limit)
      ensures depth <= 24 && !folder.readable ==> thrown
      ensures depth <= 24 && folder.readable && old(entries) + |folder.entries| > 8192 ==> issue == Some(Limit)
      decreases folder, 1
    {
      if depth > MAX_DEPTH {
        issue := Some(Limit);
        return;
      }
      if !folder.readable {
        thrown := true;
        return;
      }
      var names: seq<Entry> := [];
      for i := 0 to |folder.entries|
        invariant names == folder.entries[..i]
        invariant State() == old(State()).(entries := old(entries) + i) && entries <= MAX_ENTRIES
      {
        entries := entries + 1;
        if entries > MAX_ENTRIES {
          issue := Some(Limit);
          return;
        }
        names := names + [folder.entries[i]];
      }
      assert names == folder.entries;
      for i := 0 to |names|
        invariant bytes <= MAX_BYTES && entries <= MAX_ENTRIES && !Stopped(State())
        invariant WalkEntries(folder.entries, i, prefix, depth, State()) == Walk(folder, prefix, depth, old(State()))
      {
        if !Excluded(names[i].name) {
          VisitOne(names[i], prefix, depth);
          if issue.Some? || thrown {
            return;
          }
        }
      }
    }

    method VisitOne(entry: Entry, prefix: Name, depth: nat)
      requires bytes <= MAX_BYTES && entries <= MAX_ENTRIES && !Stopped(State())
      modifies this
      ensures State() == WalkOne(entry, prefix, depth, old(State()))
      ensures !Stopped(State()) ==> entries <= MAX_ENTRIES
      ensures entry.node.Link? ==> issue == Some(Symlink)
      ensures entry.node.Special? ==> issue == Some(Unreadable)
      ensures entry.node.Gone? ==> thrown
      ensures entry.node.Folder? && depth >= 24 ==> issue == Some(Limit)
      ensures entry.node.Regular? ==>
                if old(files) >= 4096 || entry.node.size > 8388608 || old(bytes) + entry.node.size > 67108864
                then issue == Some(Limit) else thrown || issue.None?
      decreases entry
    {
      match entry.node
      case Gone => thrown := true;
      case Link => issue := Some(Symlink);
      case Folder(_, _) => WalkFolder(entry.node, prefix + entry.name + [47], depth + 1);
      case Regular(size, read) =>
        files := files + 1;
        if files > MAX_FILES || size > MAX_FILE || bytes + size > MAX_BYTES {
          issue := Some(Limit);
          return;
        }
        if read.None? || |read.value| > Min(MAX_FILE, MAX_BYTES - bytes) {
          thrown := true;
          return;
        }
        var data := read.value;
        bytes := bytes + |data|;
        stream := stream + Header(prefix + entry.name, |data|);
        stream := stream + data;
        covered := covered + [File(prefix + entry.name, data)];
      case Special => issue := Some(Unreadable);
    }
  }

  method SourceSnapshot(root: Node) returns (s: Snapshot)
    ensures s == TakeSnapshot(root)
    ensures s.Complete? <==> Coverable(root)
    ensures !root.Folder? || !root.readable ==> s == Unknown(Unreadable, 0)
    ensures s.Complete? ==> s.files <= 4096 && s.digest == Stream(Read(Listing(root.entries, 0, [])))
  {
    CompleteExactly(root);
    if !root.Folder? {
      return Unknown(Unreadable, 0);
    }
    var walker := new Walker();
    walker.WalkFolder(root, [], 0);
    if walker.thrown {
      s := Unknown(Unreadable, walker.files);
    } else if walker.issue.Some? {
      s := Unknown(walker.issue.value, walker.files);
    } else {
      s := Complete(walker.stream, walker.files);
    }
  }

  // ---------- Freshness ----------

  datatype RunState = Running | Passed | Failed | Interrupted
  datatype Freshness = Unfinished | NotKnown | ChangedDuringRun | Changed | Matches

  function Judge(state: RunState, before: Snapshot, after: Option<Snapshot>, current: Snapshot): Freshness {
    if state.Running? then Unfinished
    else if !before.Complete? || after.None? || !after.value.Complete? || !current.Complete? then NotKnown
    else if before.digest != after.value.digest then ChangedDuringRun
    else if after.value.digest != current.digest then Changed
    else Matches
  }

  function FilesOf(root: Node): seq<File>
    requires Coverable(root)
  {
    Read(Listing(root.entries, 0, []))
  }

  /** `matches` is reported exactly when the run finished and the same files with the same contents were
      there before it, after it and now; a difference is placed during the run exactly when it was there
      already at its end. */
  lemma JudgesContents(state: RunState, before: Node, after: Node, current: Node)
    ensures var verdict := Judge(state, TakeSnapshot(before), Some(TakeSnapshot(after)), TakeSnapshot(current));
            var known := !state.Running? && Coverable(before) && Coverable(after) && Coverable(current);
            && (verdict == Unfinished <==> state.Running?) && (verdict == NotKnown <==> !state.Running? && !known)
            && (verdict == Matches <==> known && FilesOf(before) == FilesOf(after) == FilesOf(current))
            && (verdict == Changed <==> known && FilesOf(before) == FilesOf(after) != FilesOf(current))
            && (verdict == ChangedDuringRun <==> known && FilesOf(before) != FilesOf(after))
  {
    CompleteExactly(before);
    CompleteExactly(after);
    CompleteExactly(current);
    if Coverable(before) && Coverable(after) { DigestDetermines(before, after); }
    if Coverable(after) && Coverable(current) { DigestDetermines(after, current); }
  }

  /** A run that has not recorded the state at its end is unfinished while it runs and else not known. */
  lemma JudgesWithoutEnd(state: RunState, before: Snapshot, current: Snapshot)
    ensures Judge(state, before, None, current) == Unfinished <==> state.Running?
    ensures Judge(state, before, None, current) == NotKnown <==> !state.Running?
  {
  }
}
