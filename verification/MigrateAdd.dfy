/** `resolve_blocking` over a directory, and what repeated `sqlx migrate add` calls build up. */
module MigrateAdd {
  import opened Basics
  import opened Decimal
  import opened Migrations
  import opened MigrationFiles

  // ------------------------------------------------------------------ reading a directory

  predicate SortedByVersion(files: seq<File>) {
    forall i, j :: 0 <= i < j < |files| ==> files[i].version <= files[j].version
  }

  predicate DistinctNames(files: seq<File>) {
    forall i, j :: 0 <= i < j < |files| ==> files[i].name != files[j].name
  }

  /** The files are read from the names, one for each name that is a migration's. */
  ghost predicate ReadFrom(parse: string -> Parsed, names: set<string>, files: seq<File>) {
    && DistinctNames(files)
    && (forall f :: f in files ==> f.name in names && parse(f.name) == Parsed(f))
    && (forall n :: n in names ==> parse(n).Ignored? || (parse(n).Parsed? && parse(n).file in files))
  }

  lemma ReadOne(parse: string -> Parsed, names: set<string>, files: seq<File>, name: string)
    requires ReadFrom(parse, names, files) && name !in names
    requires parse(name).Parsed? ==> parse(name).file.name == name
    ensures parse(name).Ignored? ==> ReadFrom(parse, names + {name}, files)
    ensures parse(name).Parsed? ==> ReadFrom(parse, names + {name}, files + [parse(name).file])
  {
    if parse(name).Parsed? {
      forall i | 0 <= i < |files| ensures files[i].name != name {
        assert files[i] in files;
      }
    }
  }

  lemma InsertKeeps(files: seq<File>, f: File, k: nat)
    requires k <= |files| && SortedByVersion(files) && DistinctNames(files)
    requires forall i :: 0 <= i < |files| ==> files[i].name != f.name
    requires forall i :: k <= i < |files| ==> files[i].version > f.version
    requires k > 0 ==> files[k - 1].version <= f.version
    ensures SortedByVersion(InsertAt(files, f, k)) && DistinctNames(InsertAt(files, f, k))
  {
    assert forall i :: 0 <= i < k ==> files[i].version <= f.version;
  }

  /** A stable sort: a file goes after those of the same version. */
  method SortByVersion(files: seq<File>) returns (r: seq<File>)
    requires DistinctNames(files)
    ensures SortedByVersion(r) && DistinctNames(r)
    ensures forall f :: f in r <==> f in files
  {
    r := [];
    for i := 0 to |files|
      invariant SortedByVersion(r) && DistinctNames(r)
      invariant forall f :: f in r <==> f in files[..i]
    {
      var f := files[i];
      var k := |r|;
      while k > 0 && r[k - 1].version > f.version
        invariant 0 <= k <= |r|
        invariant forall j :: k <= j < |r| ==> r[j].version > f.version
      {
        k := k - 1;
      }
      forall j | 0 <= j < |r| ensures r[j].name != f.name {
        assert r[j] in files[..i];
      }
      InsertKeeps(r, f, k);
      InsertMembers(r, f, k);
      r := InsertAt(r, f, k);
      assert files[..i + 1] == files[..i] + [f];
    }
    assert files[..|files|] == files;
  }

  /** `resolve_blocking`: the entries come in any order; a bad version prefix is an error. */
  method Resolve(names: set<string>) returns (r: Option<seq<File>>)
    ensures r.None? <==> exists n :: n in names && ParseName(n).BadVersion?
    ensures r.Some? ==> SortedByVersion(r.value) && ReadFrom(ParseName, names, r.value)
  {
    var files: seq<File> := [];
    var rest := names;
    while rest != {}
      invariant rest <= names && ReadFrom(ParseName, names - rest, files)
      decreases rest
    {
      var name := Pick(rest);
      var parsed := ParseName(name);
      if parsed.BadVersion? {
        return None;
      }
      assert names - (rest - {name}) == (names - rest) + {name};
      ReadOne(ParseName, names - rest, files, name);
      files := if parsed.Parsed? then files + [parsed.file] else files;
      rest := rest - {name};
    }
    assert names - rest == names;
    var sorted := SortByVersion(files);
    return Some(sorted);
  }

  // ------------------------------------------------------------------ adding a migration

  datatype Ordering = Timestamp | Sequential(version: int)

  function Ups(files: seq<File>): (r: seq<File>)
    ensures forall f :: f in r <==> f in files && !f.kind.ReversibleDown?
  {
    if files == [] then []
    else
      var rest := Ups(files[..|files| - 1]);
      if files[|files| - 1].kind.ReversibleDown? then rest else rest + [files[|files| - 1]]
  }

  /** Without a flag the up migrations decide. */
  function InferFrom(ups: seq<File>): Ordering {
    var n := |ups|;
    if n >= 2 then
      if ups[n - 1].version - ups[n - 2].version == 1 then Sequential(ups[n - 1].version + 1) else Timestamp
    else if n == 1 then
      if ups[0].version == 0 || ups[0].version == 1 then Sequential(ups[0].version + 1) else Timestamp
    else Timestamp
  }

  /** `MigrationOrdering::infer` */
  function InferOrdering(sequential: bool, timestamp: bool, files: seq<File>): Ordering
    requires !(sequential && timestamp)
  {
    if timestamp then Timestamp
    else if sequential then Sequential(if files == [] then 1 else files[|files| - 1].version + 1)
    else InferFrom(Ups(files))
  }

  /** `MigrationType::infer`, as far as `add` asks: whether to create a pair. */
  function InferReversible(files: seq<File>, reversible: bool): bool {
    if files == [] then reversible else !files[0].kind.Simple?
  }

  /** The file names of one migration. */
  type Namer = (int, string, Kind) -> string

  function Pair(name: Namer, v: int, d: string, reversible: bool): set<string> {
    if reversible then {name(v, d, ReversibleUp), name(v, d, ReversibleDown)} else {name(v, d, Simple)}
  }

  function NumberedName(v: int, d: string, kind: Kind): string {
    CreateName(Pad4(v), d, kind)
  }

  /** The names that an ordering and a kind lead to; `now` is the formatted time. */
  function Created(ordering: Ordering, d: string, pair: bool, now: string): set<string> {
    if ordering.Timestamp? then Pair(TimedName(now), 0, d, pair) else Pair(NumberedName, ordering.version, d, pair)
  }

  /** `add`: the names it creates. */
  function Added(
    files: seq<File>, d: string, reversible: bool, sequential: bool, timestamp: bool, now: string): set<string>
    requires !(sequential && timestamp)
  {
    Created(InferOrdering(sequential, timestamp, files), d, InferReversible(files, reversible), now)
  }

  /** With `--sequential` the next number is one more than the greatest, or 1; with `--timestamp` it is the time. */
  lemma FlaggedOrdering(files: seq<File>)
    requires SortedByVersion(files)
    ensures InferOrdering(false, true, files) == Timestamp
    ensures var o := InferOrdering(true, false, files);
            && o.Sequential? && (files == [] ==> o.version == 1)
            && AllBelow(files, o.version) && (files != [] ==> Numbers(files, o.version - 1))
  {
    if files != [] {
      LastTwo(files);
    }
  }

  /**
   * Without a flag a number is given only after up migrations that are numbered: it is one more than
   * the greatest, and the one before that is there too, or there is only number 0 or 1.
   */
  lemma InferredNumber(files: seq<File>)
    requires SortedByVersion(files) && InferOrdering(false, false, files).Sequential?
    ensures var v, ups := InferOrdering(false, false, files).version, Ups(files);
            && AllBelow(ups, v) && Numbers(ups, v - 1)
            && (Numbers(ups, v - 2) || (|ups| == 1 && 1 <= v <= 2))
  {
    UpsSorted(files);
    NumberFollows(Ups(files));
  }

  lemma NumberFollows(ups: seq<File>)
    requires SortedByVersion(ups) && InferFrom(ups).Sequential?
    ensures var v := InferFrom(ups).version;
            && AllBelow(ups, v) && Numbers(ups, v - 1)
            && (Numbers(ups, v - 2) || (|ups| == 1 && 1 <= v <= 2))
  {
    LastTwo(ups);
  }

  predicate Numbers(files: seq<File>, v: int) {
    exists i :: 0 <= i < |files| && files[i].version == v
  }

  predicate AllBelow(files: seq<File>, v: int) {
    forall i :: 0 <= i < |files| ==> files[i].version < v
  }

  lemma LastTwo(ups: seq<File>)
    requires SortedByVersion(ups) && ups != []
    ensures AllBelow(ups, ups[|ups| - 1].version + 1) && Numbers(ups, ups[|ups| - 1].version)
    ensures |ups| >= 2 ==> Numbers(ups, ups[|ups| - 2].version)
  {
  }

  /** In a directory of timestamps, no two of which are consecutive numbers, another one is given. */
  lemma InferredTimestamp(files: seq<File>)
    requires forall f, g :: f in Ups(files) && g in Ups(files) ==> f.version - g.version != 1
    requires |Ups(files)| == 1 ==> Ups(files)[0].version < 0 || Ups(files)[0].version > 1
    ensures InferOrdering(false, false, files) == Timestamp
  {
    var ups := Ups(files);
    if |ups| >= 2 {
      assert ups[|ups| - 1] in ups && ups[|ups| - 2] in ups;
    }
  }

  // ------------------------------------------------------------------ a run of adds

  /** The names of versions 1 to n. */
  function Numbered(name: Namer, ds: seq<string>, reversible: bool): set<string> {
    if ds == [] then {}
    else Numbered(name, ds[..|ds| - 1], reversible) + Pair(name, |ds|, ds[|ds| - 1], reversible)
  }

  /** How the kind of a file is read back from its description and its kind. */
  type Reader = (string, Kind) -> Kind

  /** The name of version `i + 1` is read back with that version. */
  predicate FaithfulAt(name: Namer, parse: string -> Parsed, read: Reader, ds: seq<string>, i: nat, kind: Kind)
    requires i < |ds|
  {
    var s := name(i + 1, ds[i], kind);
    parse(s).Parsed? && parse(s).file.name == s && parse(s).file.version == i + 1
        && parse(s).file.kind == read(ds[i], kind)
  }

  ghost predicate Faithful(name: Namer, parse: string -> Parsed, read: Reader, ds: seq<string>) {
    && (forall i, k: Kind :: 0 <= i < |ds| ==> FaithfulAt(name, parse, read, ds, i, k))
    && (forall d, k: Kind :: !k.Simple? ==> read(d, k) == k)
  }

  lemma NamesAreFaithful(ds: seq<string>)
    requires |ds| < I64_MAX
    ensures Faithful(NumberedName, ParseName, KindRead, ds)
  {
    forall i, k: Kind | 0 <= i < |ds| ensures FaithfulAt(NumberedName, ParseName, KindRead, ds, i, k) {
      PadParses(i + 1);
      VersionAndKindReadBack(Pad4(i + 1), i + 1, ds[i], k);
    }
  }

  function UpKind(reversible: bool): Kind {
    if reversible then ReversibleUp else Simple
  }

  predicate KindFits(kind: Kind, reversible: bool) {
    kind.Simple? != reversible
  }

  /** A name in the directory is that of some version, and is read back as such. */
  lemma {:induction false} NumberedMember(
    name: Namer, parse: string -> Parsed, read: Reader, ds: seq<string>, reversible: bool, s: string)
    returns (i: nat, kind: Kind)
    requires Faithful(name, parse, read, ds) && s in Numbered(name, ds, reversible)
    ensures i < |ds| && KindFits(kind, reversible) && s == name(i + 1, ds[i], kind)
    ensures FaithfulAt(name, parse, read, ds, i, kind)
    decreases |ds|
  {
    var last := |ds| - 1;
    var init := ds[..last];
    if s in Pair(name, |ds|, ds[last], reversible) {
      i := last;
      kind := if !reversible then Simple
          else if s == name(|ds|, ds[last], ReversibleUp) then ReversibleUp else ReversibleDown;
      assert FaithfulAt(name, parse, read, ds, last, kind);
    } else {
      FaithfulPrefix(name, parse, read, ds, last);
      i, kind := NumberedMember(name, parse, read, init, reversible, s);
      assert FaithfulAt(name, parse, read, ds, i, kind);
    }
  }

  lemma FaithfulPrefix(name: Namer, parse: string -> Parsed, read: Reader, ds: seq<string>, n: nat)
    requires Faithful(name, parse, read, ds) && n <= |ds|
    ensures Faithful(name, parse, read, ds[..n])
  {
    var init := ds[..n];
    forall j, k: Kind | 0 <= j < n ensures FaithfulAt(name, parse, read, init, j, k) {
      assert FaithfulAt(name, parse, read, ds, j, k);
    }
  }

  lemma {:induction false} NumberedHas(name: Namer, ds: seq<string>, reversible: bool, i: nat)
    requires i < |ds|
    ensures name(i + 1, ds[i], UpKind(reversible)) in Numbered(name, ds, reversible)
    decreases |ds|
  {
    if i < |ds| - 1 {
      NumberedHas(name, ds[..|ds| - 1], reversible, i);
    }
  }

  function VersionsOf(files: seq<File>): (vs: seq<int>)
    ensures |vs| == |files| && forall i :: 0 <= i < |vs| ==> vs[i] == files[i].version
  {
    seq(|files|, i requires 0 <= i < |files| => files[i].version)
  }

  function OneTo(n: nat): (vs: seq<int>)
    ensures |vs| == n && forall i :: 0 <= i < n ==> vs[i] == i + 1
  {
    seq(n, i => i + 1)
  }

  lemma {:induction false} UpsSorted(files: seq<File>)
    requires SortedByVersion(files)
    ensures SortedByVersion(Ups(files))
    decreases |files|
  {
    if files != [] {
      var init := files[..|files| - 1];
      UpsSorted(init);
      forall f | f in Ups(init) ensures f.version <= files[|files| - 1].version {
        var i :| 0 <= i < |init| && init[i] == f;
      }
    }
  }

  lemma {:induction false} UpsDistinct(files: seq<File>)
    requires DistinctNames(files)
    ensures DistinctNames(Ups(files))
    decreases |files|
  {
    if files != [] {
      var init := files[..|files| - 1];
      UpsDistinct(init);
      forall f | f in Ups(init) ensures f.name != files[|files| - 1].name {
        var i :| 0 <= i < |init| && init[i] == f;
      }
    }
  }

  ghost predicate HasUp(files: seq<File>, v: int) {
    exists f :: f in Ups(files) && f.version == v
  }

  /** The files that count as up migrations are exactly one for each of the versions 1 to m. */
  ghost predicate Lists(m: nat, files: seq<File>) {
    && (forall f :: f in Ups(files) ==> 1 <= f.version <= m)
    && (forall f, g :: f in Ups(files) && g in Ups(files) && f.version == g.version ==> f.name == g.name)
    && (forall v :: 1 <= v <= m ==> HasUp(files, v))
  }

  /** The up file of version `i + 1` is taken for a down migration. */
  predicate TakenForDown(read: Reader, ds: seq<string>, reversible: bool, i: nat)
    requires i < |ds|
  {
    read(ds[i], UpKind(reversible)).ReversibleDown?
  }

  /** Of the versions of `ds` exactly the first `m` are taken for up migrations. */
  predicate UpTo(read: Reader, ds: seq<string>, reversible: bool, m: nat) {
    m <= |ds| && forall i :: 0 <= i < |ds| ==> (TakenForDown(read, ds, reversible, i) <==> i >= m)
  }

  /** The up file of its version, which is one of the first `m`. */
  predicate IsUpFile(name: Namer, ds: seq<string>, reversible: bool, m: nat, f: File) {
    1 <= f.version <= m <= |ds| && f.name == name(f.version, ds[f.version - 1], UpKind(reversible))
  }

  lemma UpMember(name: Namer, parse: string -> Parsed, read: Reader, ds: seq<string>, reversible: bool, m: nat, f: File)
    requires Faithful(name, parse, read, ds) && UpTo(read, ds, reversible, m)
    requires f.name in Numbered(name, ds, reversible) && parse(f.name) == Parsed(f) && !f.kind.ReversibleDown?
    ensures IsUpFile(name, ds, reversible, m, f)
  {
    var i, kind := NumberedMember(name, parse, read, ds, reversible, f.name);
    assert kind == UpKind(reversible) && !TakenForDown(read, ds, reversible, i);
  }

  lemma UpMembers(
    name: Namer, parse: string -> Parsed, read: Reader, ds: seq<string>, reversible: bool, m: nat, files: seq<File>)
    requires Faithful(name, parse, read, ds) && UpTo(read, ds, reversible, m)
    requires ReadFrom(parse, Numbered(name, ds, reversible), files)
    ensures forall f :: f in Ups(files) ==> IsUpFile(name, ds, reversible, m, f)
  {
    forall f | f in Ups(files) ensures IsUpFile(name, ds, reversible, m, f) {
      UpMember(name, parse, read, ds, reversible, m, f);
    }
  }

  lemma UpsUnique(name: Namer, ds: seq<string>, reversible: bool, m: nat, ups: seq<File>)
    requires forall f :: f in ups ==> IsUpFile(name, ds, reversible, m, f)
    ensures forall f :: f in ups ==> 1 <= f.version <= m
    ensures forall f, g :: f in ups && g in ups && f.version == g.version ==> f.name == g.name
  {
  }

  lemma UpPresent(
    name: Namer, parse: string -> Parsed, read: Reader, ds: seq<string>, reversible: bool, m: nat,
    files: seq<File>, i: nat)
    requires Faithful(name, parse, read, ds) && UpTo(read, ds, reversible, m) && i < m
    requires ReadFrom(parse, Numbered(name, ds, reversible), files)
    ensures HasUp(files, i + 1)
  {
    NumberedHas(name, ds, reversible, i);
    var kind := UpKind(reversible);
    assert FaithfulAt(name, parse, read, ds, i, kind) && !TakenForDown(read, ds, reversible, i);
    assert parse(name(i + 1, ds[i], kind)).file in Ups(files);
  }

  /** However the directory of a run is listed. */
  lemma DirLists(
    name: Namer, parse: string -> Parsed, read: Reader, ds: seq<string>, reversible: bool, m: nat, files: seq<File>)
    requires Faithful(name, parse, read, ds) && UpTo(read, ds, reversible, m)
    requires ReadFrom(parse, Numbered(name, ds, reversible), files)
    ensures Lists(m, files)
  {
    UpMembers(name, parse, read, ds, reversible, m, files);
    UpsUnique(name, ds, reversible, m, Ups(files));
    forall v | 1 <= v <= m ensures HasUp(files, v) {
      UpPresent(name, parse, read, ds, reversible, m, files, v - 1);
    }
  }

  /** The first file of the sorted list is one of version 1. */
  lemma FirstFile(
    name: Namer, parse: string -> Parsed, read: Reader, ds: seq<string>, reversible: bool, files: seq<File>)
    requires Faithful(name, parse, read, ds) && ds != []
    requires SortedByVersion(files) && ReadFrom(parse, Numbered(name, ds, reversible), files)
    ensures files != []
    ensures if reversible then !files[0].kind.Simple? else files[0].kind == read(ds[0], Simple)
  {
    NumberedHas(name, ds, reversible, 0);
    assert FaithfulAt(name, parse, read, ds, 0, UpKind(reversible));
    var one := parse(name(1, ds[0], UpKind(reversible))).file;
    assert one in files;
    FirstName(parse, Numbered(name, ds, reversible), files);
    assert files[0] in files;
    var i, kind := NumberedMember(name, parse, read, ds, reversible, files[0].name);
    assert files[0].version <= one.version;
  }

  lemma UpsAscend(m: nat, files: seq<File>)
    requires SortedByVersion(files) && DistinctNames(files) && Lists(m, files)
    ensures Ascending(VersionsOf(Ups(files)))
  {
    var ups := Ups(files);
    UpsSorted(files);
    UpsDistinct(files);
    forall i, j | 0 <= i < j < |ups| ensures VersionsOf(ups)[i] < VersionsOf(ups)[j] {
      assert ups[i] in ups && ups[j] in ups;
    }
  }

  lemma HasVersion(ups: seq<File>, v: int)
    ensures v in VersionsOf(ups) <==> exists f :: f in ups && f.version == v
  {
    if v in VersionsOf(ups) {
      var i :| 0 <= i < |ups| && VersionsOf(ups)[i] == v;
      assert ups[i] in ups && ups[i].version == v;
    }
    if f :| f in ups && f.version == v {
      var i :| 0 <= i < |ups| && ups[i] == f;
      assert VersionsOf(ups)[i] == v;
    }
  }

  /** Sorted by version, the up migrations are 1, 2, ..., m. */
  lemma UpsAreOneToM(m: nat, files: seq<File>)
    requires SortedByVersion(files) && DistinctNames(files) && Lists(m, files)
    ensures VersionsOf(Ups(files)) == OneTo(m)
  {
    var ups := Ups(files);
    UpsAscend(m, files);
    forall v ensures v in VersionsOf(ups) <==> v in OneTo(m) {
      HasVersion(ups, v);
      assert v in OneTo(m) <==> 1 <= v <= m by {
        assert 1 <= v <= m ==> OneTo(m)[v - 1] == v;
      }
      assert 1 <= v <= m ==> HasUp(files, v);
    }
    SameAscending(VersionsOf(ups), OneTo(m));
  }

  lemma LastVersions(ups: seq<File>, m: nat)
    requires m > 0 && VersionsOf(ups) == OneTo(m)
    ensures |ups| == m && ups[m - 1].version == m
    ensures m >= 2 ==> ups[m - 2].version == m - 1
  {
    assert VersionsOf(ups)[m - 1] == m;
    assert m >= 2 ==> VersionsOf(ups)[m - 2] == m - 1;
  }

  /** The next number is counted from what is taken for up migrations. */
  lemma InferNext(m: nat, files: seq<File>)
    requires SortedByVersion(files) && DistinctNames(files) && Lists(m, files)
    ensures InferOrdering(false, false, files) == NextOrdering(m)
  {
    UpsAreOneToM(m, files);
    if m > 0 {
      LastVersions(Ups(files), m);
    } else {
      assert |VersionsOf(Ups(files))| == 0;
    }
  }

  /** A file name made of the time. */
  function TimedName(now: string): Namer {
    (v: int, d: string, k: Kind) => CreateName(now, d, k)
  }

  /** The ordering that is inferred when `m` files are taken for up migrations. */
  function NextOrdering(m: nat): Ordering {
    if m == 0 then Timestamp else Sequential(m + 1)
  }

  /** What a flagless add creates next to the files of `ds`, of which `m` are taken for up migrations. */
  lemma AddIsNext(ds: seq<string>, d: string, first: bool, m: nat, reversible: bool, files: seq<File>, now: string)
    requires Faithful(NumberedName, ParseName, KindRead, ds) && ds != [] && UpTo(KindRead, ds, first, m)
    requires SortedByVersion(files) && ReadFrom(ParseName, Numbered(NumberedName, ds, first), files)
    ensures Added(files, d, reversible, false, false, now)
         == Created(NextOrdering(m), d, first || !KindRead(ds[0], Simple).Simple?, now)
  {
    DirLists(NumberedName, ParseName, KindRead, ds, first, m, files);
    FirstFile(NumberedName, ParseName, KindRead, ds, first, files);
    InferNext(m, files);
  }

  lemma FirstName(parse: string -> Parsed, names: set<string>, files: seq<File>)
    requires ReadFrom(parse, names, files) && files != []
    ensures files[0].name in names
  {
    assert files[0] in files;
  }

  lemma NumberedMore(ds: seq<string>, d: string, first: bool)
    ensures Numbered(NumberedName, ds + [d], first)
         == Numbered(NumberedName, ds, first) + Pair(NumberedName, |ds| + 1, d, first)
  {
    assert (ds + [d])[..|ds|] == ds;
  }

  /** `dirs[i]` is the directory after the first `i` adds, each of which listed it in some order. */
  ghost predicate IsRun(dirs: seq<set<string>>, ds: seq<string>, flags: seq<bool>) {
    && 0 < |ds| < I64_MAX && |dirs| == |ds| + 1 && |flags| == |ds| && dirs[0] == {}
    && forall i :: 0 <= i < |ds| ==> IsStep(dirs, ds, flags, i)
  }

  ghost predicate IsStep(dirs: seq<set<string>>, ds: seq<string>, flags: seq<bool>, i: nat)
    requires |dirs| == |ds| + 1 && |flags| == |ds| && i < |ds|
  {
    AddStep(dirs[i], dirs[i + 1], ds[i], flags[i], i == 0)
  }

  /** Year, month, day, hour, minute and second. */
  predicate IsTime(now: string) {
    |now| == 14 && AllDigits(now)
  }

  ghost predicate AddStep(dir: set<string>, after: set<string>, d: string, reversible: bool, sequential: bool) {
    exists files: seq<File>, now: string ::
      && SortedByVersion(files) && ReadFrom(ParseName, dir, files) && IsTime(now)
      && after == dir + Added(files, d, reversible, sequential, false, now)
  }

  /** No version of `ds` is taken for a down migration, and the first one for what it is. */
  predicate Countable(ds: seq<string>, reversible: bool) {
    reversible || ds == [] ||
    (KindRecoverable(ds[0], Simple) && forall i :: 0 <= i < |ds| ==> !TakenForDown(KindRead, ds, false, i))
  }

  lemma FirstAdd(d: string, reversible: bool, after: set<string>)
    requires AddStep({}, after, d, reversible, true)
    ensures after == Numbered(NumberedName, [d], reversible)
  {
    var files: seq<File>, now: string :|
      && SortedByVersion(files) && ReadFrom(ParseName, {}, files) && IsTime(now)
      && after == {} + Added(files, d, reversible, true, false, now);
    if files != [] {
      FirstName(ParseName, {}, files);
      assert false;
    }
    NumberedMore([], d, reversible);
    assert [] + [d] == [d];
  }

  lemma NextAdd(dir: set<string>, ds: seq<string>, d: string, first: bool, m: nat, reversible: bool, after: set<string>)
    returns (now: string)
    requires 0 < |ds| < I64_MAX && UpTo(KindRead, ds, first, m)
    requires dir == Numbered(NumberedName, ds, first) && AddStep(dir, after, d, reversible, false)
    ensures var pair := first || !KindRead(ds[0], Simple).Simple?;
            IsTime(now) && after == dir + Created(NextOrdering(m), d, pair, now)
  {
    var files: seq<File>, time: string :|
      && SortedByVersion(files) && ReadFrom(ParseName, dir, files) && IsTime(time)
      && after == dir + Added(files, d, reversible, false, false, time);
    now := time;
    NamesAreFaithful(ds);
    AddIsNext(ds, d, first, m, reversible, files, now);
  }

  lemma CountableUpTo(ds: seq<string>, reversible: bool)
    requires Countable(ds, reversible) && ds != []
    ensures UpTo(KindRead, ds, reversible, |ds|) && (reversible || KindRead(ds[0], Simple).Simple?)
  {
    forall i | 0 <= i < |ds| ensures !TakenForDown(KindRead, ds, reversible, i) {
      assert !reversible ==> !TakenForDown(KindRead, ds, false, i);
    }
  }

  lemma CountablePrefix(ds: seq<string>, reversible: bool, n: nat)
    requires Countable(ds, reversible) && n <= |ds|
    ensures Countable(ds[..n], reversible)
  {
    var init := ds[..n];
    forall i | 0 <= i < n && !reversible ensures !TakenForDown(KindRead, init, false, i) {
      assert !TakenForDown(KindRead, ds, false, i);
    }
  }

  /**
   * One sequential add to an empty directory and then any number of flagless adds create the versions
   * 1, 2, 3, ... in order, all reversible or all not, as the first one was, as long as what is there
   * is taken for what it is.
   */
  lemma {:induction false} AddsCountUp(dirs: seq<set<string>>, ds: seq<string>, flags: seq<bool>, n: nat)
    requires IsRun(dirs, ds, flags) && 0 < n <= |ds| && Countable(ds[..n - 1], flags[0])
    ensures dirs[n] == Numbered(NumberedName, ds[..n], flags[0])
    decreases n
  {
    if n == 1 {
      assert IsStep(dirs, ds, flags, 0);
      FirstAdd(ds[0], flags[0], dirs[1]);
      assert ds[..1] == [ds[0]];
    } else {
      CountablePrefix(ds[..n - 1], flags[0], n - 2);
      assert ds[..n - 1][..n - 2] == ds[..n - 2];
      AddsCountUp(dirs, ds, flags, n - 1);
      AddsOneMore(dirs, ds, flags, n - 1);
    }
  }

  lemma AddsOneMore(dirs: seq<set<string>>, ds: seq<string>, flags: seq<bool>, n: nat)
    requires IsRun(dirs, ds, flags) && 0 < n < |ds| && Countable(ds[..n], flags[0])
    requires dirs[n] == Numbered(NumberedName, ds[..n], flags[0])
    ensures dirs[n + 1] == Numbered(NumberedName, ds[..n + 1], flags[0])
  {
    assert IsStep(dirs, ds, flags, n);
    TakeNext(ds, n);
    CountableUpTo(ds[..n], flags[0]);
    var _ := NextAdd(dirs[n], ds[..n], ds[n], flags[0], n, flags[n], dirs[n + 1]);
    NumberedMore(ds[..n], ds[n], flags[0]);
  }

  // ------------------------------------------------------------------ where counting fails

  /** A file of a simple run is known by its prefix. */
  lemma SimpleMember(ds: seq<string>, p: string, d: string, kind: Kind) returns (i: nat)
    requires |ds| < I64_MAX && '_' !in p && CreateName(p, d, kind) in Numbered(NumberedName, ds, false)
    ensures i < |ds| && CreateName(p, d, kind) == NumberedName(i + 1, ds[i], Simple) && ParseI64(p) == Some(i + 1)
  {
    NamesAreFaithful(ds);
    var k;
    i, k := NumberedMember(NumberedName, ParseName, KindRead, ds, false, CreateName(p, d, kind));
    PadParses(i + 1);
    SamePrefix(p, Pad4(i + 1), d, ds[i], kind, k);
  }

  /** A pair never belongs to a simple run. */
  lemma NoPair(ds: seq<string>, p: string, d: string)
    requires |ds| < I64_MAX && '_' !in p
    ensures !(CreateName(p, d, ReversibleUp) in Numbered(NumberedName, ds, false)
              && CreateName(p, d, ReversibleDown) in Numbered(NumberedName, ds, false))
  {
    if CreateName(p, d, ReversibleUp) in Numbered(NumberedName, ds, false)
       && CreateName(p, d, ReversibleDown) in Numbered(NumberedName, ds, false) {
      var i := SimpleMember(ds, p, d, ReversibleUp);
      var j := SimpleMember(ds, p, d, ReversibleDown);
      KindsDiffer(p, d);
    }
  }

  lemma KindsDiffer(p: string, d: string)
    ensures CreateName(p, d, ReversibleUp) != CreateName(p, d, ReversibleDown)
  {
    assert |CreateName(p, d, ReversibleUp)| + 2 == |CreateName(p, d, ReversibleDown)|;
  }

  lemma GrowsOnce(dirs: seq<set<string>>, ds: seq<string>, flags: seq<bool>, i: nat)
    requires IsRun(dirs, ds, flags) && i < |ds|
    ensures dirs[i] <= dirs[i + 1]
  {
    assert IsStep(dirs, ds, flags, i);
  }

  lemma {:induction false} RunGrows(dirs: seq<set<string>>, ds: seq<string>, flags: seq<bool>, i: nat, j: nat)
    requires IsRun(dirs, ds, flags) && i <= j <= |ds|
    ensures dirs[i] <= dirs[j]
    decreases j
  {
    if i < j {
      RunGrows(dirs, ds, flags, i, j - 1);
      GrowsOnce(dirs, ds, flags, j - 1);
    }
  }

  /** What the second add creates when the first description is taken for another kind. */
  lemma SecondIsPair(dirs: seq<set<string>>, ds: seq<string>, flags: seq<bool>) returns (p: string)
    requires IsRun(dirs, ds, flags) && |ds| >= 2 && !flags[0] && !KindRecoverable(ds[0], Simple)
    ensures '_' !in p && {CreateName(p, ds[1], ReversibleUp), CreateName(p, ds[1], ReversibleDown)} <= dirs[2]
  {
    var one := [ds[0]];
    assert ds[..1] == one && ds[..0] == [];
    AddsCountUp(dirs, ds, flags, 1);
    assert IsStep(dirs, ds, flags, 1);
    var m := if KindRead(ds[0], Simple).ReversibleDown? then 0 else 1;
    OneUpTo(ds[0], m);
    var now := NextAdd(dirs[1], one, ds[1], false, m, flags[1], dirs[2]);
    PadParses(m + 1);
    p := if m == 0 then now else Pad4(m + 1);
    PairNames(now, m, ds[1]);
  }

  lemma OneUpTo(d: string, m: nat)
    requires m == if KindRead(d, Simple).ReversibleDown? then 0 else 1
    ensures UpTo(KindRead, [d], false, m)
  {
    var one := [d];
    forall i | 0 <= i < 1 ensures TakenForDown(KindRead, one, false, i) <==> i >= m {
    }
  }

  lemma PairNames(now: string, m: nat, d: string)
    requires IsTime(now)
    ensures '_' !in now
    ensures Pair(TimedName(now), 0, d, true) == {CreateName(now, d, ReversibleUp), CreateName(now, d, ReversibleDown)}
    ensures Pair(NumberedName, m + 1, d, true)
         == {CreateName(Pad4(m + 1), d, ReversibleUp), CreateName(Pad4(m + 1), d, ReversibleDown)}
  {
  }

  /** A first description that is taken for another kind makes the second add create a pair. */
  lemma MisleadingFirst(dirs: seq<set<string>>, ds: seq<string>, flags: seq<bool>)
    requires IsRun(dirs, ds, flags) && |ds| >= 2 && !flags[0] && !KindRecoverable(ds[0], Simple)
    ensures dirs[|ds|] != Numbered(NumberedName, ds, false)
  {
    var p := SecondIsPair(dirs, ds, flags);
    RunGrows(dirs, ds, flags, 2, |ds|);
    NoPair(ds, p, ds[1]);
  }

  /** The number of version `b + 1`, which is taken for a down migration, is given again. */
  lemma StuckOnce(dirs: seq<set<string>>, ds: seq<string>, flags: seq<bool>, b: nat, k: nat)
    requires IsRun(dirs, ds, flags) && 0 < b < k < |ds|
    requires Countable(ds[..b], false) && TakenForDown(KindRead, ds, false, b)
    requires dirs[k] == Numbered(NumberedName, ds[..b + 1], false)
    ensures dirs[k + 1] == dirs[k] + {NumberedName(b + 1, ds[k], Simple)}
  {
    assert IsStep(dirs, ds, flags, k);
    StuckUpTo(ds, b);
    var _ := NextAdd(dirs[k], ds[..b + 1], ds[k], false, b, flags[k], dirs[k + 1]);
  }

  /** From the same directory, each add creates the name meant for it. */
  ghost predicate Repeats(dirs: seq<set<string>>, xs: seq<string>, dir: set<string>, from: nat) {
    |dirs| == |xs| + 1 && forall j :: from <= j < |xs| && dirs[j] == dir ==> dirs[j + 1] == dir + {xs[j]}
  }

  /** Names that are wanted in the end are there already. */
  predicate Absorbs(all: set<string>, xs: seq<string>, dir: set<string>) {
    forall j :: 0 <= j < |xs| && xs[j] in all ==> xs[j] in dir
  }

  /** Adds of names that are there already change nothing. */
  lemma {:induction false} StaysPut(
    dirs: seq<set<string>>, xs: seq<string>, dir: set<string>, all: set<string>, from: nat, k: nat)
    requires Repeats(dirs, xs, dir, from) && Absorbs(all, xs, dir)
    requires from <= k <= |xs| && dirs[from] == dir && forall i :: 0 <= i < |dirs| ==> dirs[i] <= all
    ensures dirs[k] == dir
    decreases k
  {
    if k > from {
      StaysPut(dirs, xs, dir, all, from, k - 1);
      assert xs[k - 1] in dirs[k - 1 + 1];
    }
  }

  lemma StuckUpTo(ds: seq<string>, b: nat)
    requires 0 < b < |ds| && Countable(ds[..b], false) && TakenForDown(KindRead, ds, false, b)
    ensures UpTo(KindRead, ds[..b + 1], false, b) && KindRead(ds[..b + 1][0], Simple).Simple?
  {
    var init, more := ds[..b], ds[..b + 1];
    forall i | 0 <= i < b + 1 ensures TakenForDown(KindRead, more, false, i) <==> i >= b {
      assert i < b ==> !TakenForDown(KindRead, init, false, i) && init[i] == more[i];
    }
  }

  lemma SameNumber(ds: seq<string>, b: nat, d: string, x: string, all: set<string>, some: set<string>)
    requires b < |ds| < I64_MAX && x == NumberedName(b + 1, d, Simple) && x in all
    requires all == Numbered(NumberedName, ds, false) && some == Numbered(NumberedName, ds[..b + 1], false)
    ensures x in some
  {
    PadParses(b + 1);
    var i := SimpleMember(ds, Pad4(b + 1), d, Simple);
    NumberedHas(NumberedName, ds[..b + 1], false, b);
  }

  /** The names that the adds after version `b + 1` create if they are given that number again. */
  function Again(ds: seq<string>, b: nat): (xs: seq<string>)
    ensures |xs| == |ds| && forall j :: 0 <= j < |ds| ==> xs[j] == NumberedName(b + 1, ds[j], Simple)
  {
    seq(|ds|, j requires 0 <= j < |ds| => NumberedName(b + 1, ds[j], Simple))
  }

  /**
   * A simple run in which version `b + 1` is the first to be taken for a down migration; `dir` is the
   * directory then, `all` the one that is wanted in the end, and `xs` the names created instead.
   */
  ghost predicate Spoiled(
    dirs: seq<set<string>>, ds: seq<string>, flags: seq<bool>, b: nat, dir: set<string>, all: set<string>,
    xs: seq<string>)
  {
    && IsRun(dirs, ds, flags) && !flags[0] && 0 < b < |ds| - 1
    && Countable(ds[..b], false) && TakenForDown(KindRead, ds, false, b)
    && dir == Numbered(NumberedName, ds[..b + 1], false) && all == Numbered(NumberedName, ds, false)
    && xs == Again(ds, b)
  }

  lemma StuckStart(
    dirs: seq<set<string>>, ds: seq<string>, flags: seq<bool>, b: nat, dir: set<string>, all: set<string>,
    xs: seq<string>)
    requires Spoiled(dirs, ds, flags, b, dir, all, xs)
    ensures dirs[b + 1] == dir
  {
    assert ds[..b + 1 - 1] == ds[..b];
    AddsCountUp(dirs, ds, flags, b + 1);
  }

  lemma StuckSteps(
    dirs: seq<set<string>>, ds: seq<string>, flags: seq<bool>, b: nat, dir: set<string>, all: set<string>,
    xs: seq<string>)
    requires Spoiled(dirs, ds, flags, b, dir, all, xs)
    ensures Repeats(dirs, xs, dir, b + 1)
  {
    forall j | b + 1 <= j < |xs| && dirs[j] == dir ensures dirs[j + 1] == dir + {xs[j]} {
      StuckOnce(dirs, ds, flags, b, j);
    }
  }

  lemma SameNumbers(ds: seq<string>, b: nat, dir: set<string>, all: set<string>, xs: seq<string>)
    requires b < |ds| < I64_MAX && xs == Again(ds, b)
    requires all == Numbered(NumberedName, ds, false) && dir == Numbered(NumberedName, ds[..b + 1], false)
    ensures Absorbs(all, xs, dir)
  {
    forall j | 0 <= j < |xs| && xs[j] in all ensures xs[j] in dir {
      SameNumber(ds, b, ds[j], xs[j], all, dir);
    }
  }

  lemma AllGrow(dirs: seq<set<string>>, ds: seq<string>, flags: seq<bool>, all: set<string>)
    requires IsRun(dirs, ds, flags) && dirs[|ds|] == all
    ensures forall i :: 0 <= i < |dirs| ==> dirs[i] <= all
  {
    forall i | 0 <= i < |dirs| ensures dirs[i] <= all {
      RunGrows(dirs, ds, flags, i, |ds|);
    }
  }

  /**
   * As long as only wanted files are created the directory does not change any more, so the run does
   * not end with the files that are wanted.
   */
  lemma Stuck(
    dirs: seq<set<string>>, ds: seq<string>, flags: seq<bool>, b: nat, dir: set<string>, all: set<string>,
    xs: seq<string>)
    requires Spoiled(dirs, ds, flags, b, dir, all, xs)
    ensures dirs[|ds|] != all
  {
    StuckStart(dirs, ds, flags, b, dir, all, xs);
    StuckSteps(dirs, ds, flags, b, dir, all, xs);
    LastIsMissing(ds, b + 1);
    SameNumbers(ds, b, dir, all, xs);
    if dirs[|ds|] == all {
      AllGrow(dirs, ds, flags, all);
      StaysPut(dirs, xs, dir, all, b + 1, |ds|);
    }
  }

  lemma MisleadingLater(dirs: seq<set<string>>, ds: seq<string>, flags: seq<bool>, b: nat)
    requires IsRun(dirs, ds, flags) && !flags[0] && 0 < b < |ds| - 1
    requires Countable(ds[..b], false) && TakenForDown(KindRead, ds, false, b)
    ensures dirs[|ds|] != Numbered(NumberedName, ds, false)
  {
    Stuck(dirs, ds, flags, b, Numbered(NumberedName, ds[..b + 1], false), Numbered(NumberedName, ds, false),
        Again(ds, b));
  }

  lemma LastIsMissing(ds: seq<string>, n: nat)
    requires n < |ds| < I64_MAX
    ensures Numbered(NumberedName, ds[..n], false) != Numbered(NumberedName, ds, false)
  {
    if Numbered(NumberedName, ds[..n], false) == Numbered(NumberedName, ds, false) {
      NumberedHas(NumberedName, ds, false, |ds| - 1);
      PadParses(|ds|);
      var i := SimpleMember(ds[..n], Pad4(|ds|), ds[|ds| - 1], Simple);
    }
  }

  lemma LastSpoils(ds: seq<string>)
    requires !Countable(ds, false) && Countable(ds[..|ds| - 1], false)
    ensures if |ds| == 1 then !KindRecoverable(ds[0], Simple) else TakenForDown(KindRead, ds, false, |ds| - 1)
  {
    var init := ds[..|ds| - 1];
    forall i | 0 <= i < |init| ensures !TakenForDown(KindRead, ds, false, i) {
      assert !TakenForDown(KindRead, init, false, i);
    }
  }

  /** The first description that spoils the count. */
  lemma {:induction false} FirstBad(ds: seq<string>) returns (b: nat)
    requires !Countable(ds, false)
    ensures b < |ds| && Countable(ds[..b], false)
    ensures if b == 0 then !KindRecoverable(ds[0], Simple) else TakenForDown(KindRead, ds, false, b)
    decreases |ds|
  {
    var last := |ds| - 1;
    if Countable(ds[..last], false) {
      b := last;
      LastSpoils(ds);
    } else {
      b := FirstBad(ds[..last]);
      assert ds[..last][..b] == ds[..b] && ds[..last][b] == ds[b];
    }
  }

  lemma FirstBadBeforeLast(ds: seq<string>) returns (b: nat)
    requires ds != [] && !Countable(ds[..|ds| - 1], false)
    ensures b < |ds| - 1 && Countable(ds[..b], false)
    ensures if b == 0 then !KindRecoverable(ds[0], Simple) else TakenForDown(KindRead, ds, false, b)
  {
    var init := ds[..|ds| - 1];
    b := FirstBad(init);
    assert init[..b] == ds[..b] && init[b] == ds[b] && init[0] == ds[0];
  }

  lemma CountsToTheEnd(dirs: seq<set<string>>, ds: seq<string>, flags: seq<bool>)
    requires IsRun(dirs, ds, flags) && Countable(ds[..|ds| - 1], flags[0])
    ensures dirs[|ds|] == Numbered(NumberedName, ds, flags[0])
  {
    AddsCountUp(dirs, ds, flags, |ds|);
    assert ds[..|ds|] == ds;
  }

  lemma SpoiledSomewhere(dirs: seq<set<string>>, ds: seq<string>, flags: seq<bool>)
    requires IsRun(dirs, ds, flags) && !Countable(ds[..|ds| - 1], flags[0])
    ensures dirs[|ds|] != Numbered(NumberedName, ds, flags[0])
  {
    var b := FirstBadBeforeLast(ds);
    if b == 0 {
      MisleadingFirst(dirs, ds, flags);
    } else {
      MisleadingLater(dirs, ds, flags, b);
    }
  }

  /**
   * The directory ends up as versions 1 to n, all of the first one's kind, if and only if that is
   * reversible, or there was one add only, or the first description is taken for what it is and none
   * between the first and the last ends in `.down`.
   */
  lemma AddsCountUpIff(dirs: seq<set<string>>, ds: seq<string>, flags: seq<bool>)
    requires IsRun(dirs, ds, flags)
    ensures dirs[|ds|] == Numbered(NumberedName, ds, flags[0]) <==>
            || flags[0] || |ds| == 1
            || (KindRecoverable(ds[0], Simple) && forall i :: 0 < i < |ds| - 1 ==> !EndsWith(ds[i], ".down"))
  {
    CountableIff(ds, flags[0]);
    if Countable(ds[..|ds| - 1], flags[0]) {
      CountsToTheEnd(dirs, ds, flags);
    } else {
      SpoiledSomewhere(dirs, ds, flags);
    }
  }

  lemma CountableIff(ds: seq<string>, reversible: bool)
    requires ds != []
    ensures Countable(ds[..|ds| - 1], reversible) <==>
            || reversible || |ds| == 1
            || (KindRecoverable(ds[0], Simple) && forall i :: 0 < i < |ds| - 1 ==> !EndsWith(ds[i], ".down"))
  {
    var init := ds[..|ds| - 1];
    forall i | 0 <= i < |init| ensures TakenForDown(KindRead, init, false, i) <==> EndsWith(ds[i], ".down") {
      ReadAsDown(ds[i]);
    }
  }

  // ------------------------------------------------------------------ reading the files back

  lemma NumberedReadsBack(v: int, d: string, kind: Kind)
    requires 0 <= v <= I64_MAX
    ensures ParseName(NumberedName(v, d, kind)) == Parsed(File(NumberedName(v, d, kind), v, kind, d))
        <==> Recoverable(d, kind)
  {
    PadParses(v);
    RoundTripIff(Pad4(v), v, d, kind);
  }

  predicate AllRecoverable(ds: seq<string>, reversible: bool) {
    forall i, k: Kind :: 0 <= i < |ds| && KindFits(k, reversible) ==> Recoverable(ds[i], k)
  }

  /** With descriptions that can be recovered, every file of such a directory parses back to what it was created for. */
  lemma EveryFileReadsBack(ds: seq<string>, reversible: bool, s: string) returns (i: nat, kind: Kind)
    requires |ds| < I64_MAX && AllRecoverable(ds, reversible) && s in Numbered(NumberedName, ds, reversible)
    ensures i < |ds| && KindFits(kind, reversible) && ParseName(s) == Parsed(File(s, i + 1, kind, ds[i]))
  {
    NamesAreFaithful(ds);
    i, kind := NumberedMember(NumberedName, ParseName, KindRead, ds, reversible, s);
    NumberedReadsBack(i + 1, ds[i], kind);
  }
}
