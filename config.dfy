/** The logic of the application's `Settings` class: the comma-separated
    domain lists it derives from two string settings, and the list of
    directories it prepares before the application starts. Only the settings
    these operations read are kept; values come already resolved. */
module Config {
  import opened PyStr

  datatype Option<T> = None | Some(value: T)

  /** The settings read by the derived domain lists and by the directory
      bootstrap. */
  datatype Settings = Settings(
    allowedDomains: string,   // comma-separated; "" means no allow-list
    blockedDomains: string,   // comma-separated
    vectorDbPath: string,
    cachePath: string,
    logFile: string,
    databaseUrl: Option<string>)

  /** The default block-list, "localhost,127.0.0.1,10.0.0.0/8,172.16.0.0/12,192.168.0.0/16",
      written entry by entry. */
  const DefaultBlockedDomains: string :=
    "localhost" + "," + "127.0.0.1" + "," + "10.0.0.0/8" + "," + "172.16.0.0/12" + "," + "192.168.0.0/16"

  /** The declared default of every modelled setting. With these defaults
      nothing is allow-listed and no database URL is set, so the directory
      bootstrap appends no database directory. */
  function Defaults(): (st: Settings)
    ensures AllowedDomainsList(st) == []
    ensures !IsSqliteUrl(st.databaseUrl)
  {
    Settings(
      allowedDomains := "",
      blockedDomains := DefaultBlockedDomains,
      vectorDbPath := "./data/vector_store",
      cachePath := "./data/cache",
      logFile := "./logs/autonomous_web_researcher.log",
      databaseUrl := None)
  }

  // ---------------------------------------------------------------------------
  // Domain lists
  // ---------------------------------------------------------------------------

  /** Each field's strip is trimmed, and is empty exactly when the field is
      blank. */
  lemma StripEach(fields: seq<string>)
    ensures forall i :: 0 <= i < |fields| ==> (Strip(fields[i]) == "" <==> Blank(fields[i]))
  {
    forall i | 0 <= i < |fields| ensures Strip(fields[i]) == "" <==> Blank(fields[i]) {
      StripEmptyIffBlank(fields[i]);
    }
  }

  /** `d.strip()` for every field `d`, in order: one entry per field, with no
      surrounding whitespace, empty exactly where the field is blank. */
  function Stripped(fields: seq<string>): (ds: seq<string>)
    ensures |ds| == |fields|
    ensures forall i :: 0 <= i < |ds| ==> Trimmed(ds[i]) && (ds[i] == "" <==> Blank(fields[i]))
  {
    StripEach(fields);
    seq(|fields|, i requires 0 <= i < |fields| => Strip(fields[i]))
  }

  /** The `if d.strip()` filter of the comprehension: the non-empty entries,
      in order. */
  function NonEmpty(ds: seq<string>): (r: seq<string>)
    ensures |r| <= |ds|
    ensures forall i :: 0 <= i < |r| ==> r[i] != ""
  {
    if ds == [] then []
    else if ds[0] != "" then [ds[0]] + NonEmpty(ds[1..])
    else NonEmpty(ds[1..])
  }

  /** The positions from `from` on, in increasing order, whose entries are
      non-empty. */
  function KeptFrom(ds: seq<string>, from: nat): seq<nat>
    requires from <= |ds|
    decreases |ds| - from
  {
    if from == |ds| then []
    else (if ds[from] != "" then [from] else []) + KeptFrom(ds, from + 1)
  }

  /** The positions, in increasing order, of the entries the filter keeps. */
  function Kept(ds: seq<string>): seq<nat> {
    KeptFrom(ds, 0)
  }

  /** Every position in `KeptFrom(ds, from)` lies in `from..|ds|` and holds a
      non-empty entry, and the positions are strictly increasing. */
  lemma {:induction false} KeptFromSound(ds: seq<string>, from: nat)
    requires from <= |ds|
    ensures forall j :: 0 <= j < |KeptFrom(ds, from)| ==>
      from <= KeptFrom(ds, from)[j] < |ds| && ds[KeptFrom(ds, from)[j]] != ""
    ensures forall j, k :: 0 <= j < k < |KeptFrom(ds, from)| ==> KeptFrom(ds, from)[j] < KeptFrom(ds, from)[k]
    decreases |ds| - from
  {
    if from < |ds| {
      KeptFromSound(ds, from + 1);
      var head: seq<nat> := if ds[from] != "" then [from] else [];
      var tail := KeptFrom(ds, from + 1);
      assert KeptFrom(ds, from) == head + tail;
      forall j | 0 <= j < |head + tail| ensures from <= (head + tail)[j] < |ds| && ds[(head + tail)[j]] != "" {
        if j >= |head| { assert (head + tail)[j] == tail[j - |head|]; }
      }
    }
  }

  /** Every position from `from` on that holds a non-empty entry is in
      `KeptFrom(ds, from)`. */
  lemma {:induction false} KeptFromComplete(ds: seq<string>, from: nat, p: nat)
    requires from <= p < |ds| && ds[p] != ""
    ensures p in KeptFrom(ds, from)
    decreases |ds| - from
  {
    var head: seq<nat> := if ds[from] != "" then [from] else [];
    var tail := KeptFrom(ds, from + 1);
    assert KeptFrom(ds, from) == head + tail;
    if p > from {
      KeptFromComplete(ds, from + 1, p);
      var k :| 0 <= k < |tail| && tail[k] == p;
      assert (head + tail)[|head| + k] == p;
    }
  }

  /** The j-th entry the filter returns for `ds[from..]` is the entry at the
      j-th position of `KeptFrom(ds, from)`. */
  lemma {:induction false} KeptFromSelect(ds: seq<string>, from: nat)
    requires from <= |ds|
    ensures |KeptFrom(ds, from)| == |NonEmpty(ds[from..])|
    ensures forall j :: 0 <= j < |KeptFrom(ds, from)| ==>
      KeptFrom(ds, from)[j] < |ds| && NonEmpty(ds[from..])[j] == ds[KeptFrom(ds, from)[j]]
    decreases |ds| - from
  {
    KeptFromSound(ds, from);
    if from < |ds| {
      KeptFromSelect(ds, from + 1);
      var head: seq<nat> := if ds[from] != "" then [from] else [];
      var tail := KeptFrom(ds, from + 1);
      var heads: seq<string> := if ds[from] != "" then [ds[from]] else [];
      var tails := NonEmpty(ds[from + 1..]);
      assert ds[from..][1..] == ds[from + 1..];
      assert NonEmpty(ds[from..]) == heads + tails;
      assert KeptFrom(ds, from) == head + tail;
      forall j | 0 <= j < |head + tail| ensures (heads + tails)[j] == ds[(head + tail)[j]] {
        if j >= |head| {
          assert (head + tail)[j] == tail[j - |head|];
          assert (heads + tails)[j] == tails[j - |head|];
        }
      }
    }
  }

  /** The filter keeps exactly the non-empty entries, at the positions
      `Kept(ds)`, in input order: it drops the empty entries and reorders
      nothing. */
  lemma NonEmptyOrder(ds: seq<string>)
    ensures |Kept(ds)| == |NonEmpty(ds)|
    ensures forall j :: 0 <= j < |Kept(ds)| ==> Kept(ds)[j] < |ds| && NonEmpty(ds)[j] == ds[Kept(ds)[j]]
    ensures forall j, k :: 0 <= j < k < |Kept(ds)| ==> Kept(ds)[j] < Kept(ds)[k]
    ensures forall i :: 0 <= i < |ds| ==> (ds[i] != "" <==> i in Kept(ds))
  {
    assert ds[0..] == ds;
    KeptFromSelect(ds, 0);
    KeptFromSound(ds, 0);
    forall i | 0 <= i < |ds| && ds[i] != "" ensures i in Kept(ds) {
      KeptFromComplete(ds, 0, i);
    }
  }

  /** A list whose entries are all non-empty passes through the filter
      unchanged. */
  lemma {:induction false} NonEmptyFixed(ds: seq<string>)
    requires forall i :: 0 <= i < |ds| ==> ds[i] != ""
    ensures NonEmpty(ds) == ds
  {
    if ds != [] {
      NonEmptyFixed(ds[1..]);
      assert ds == [ds[0]] + ds[1..];
    }
  }

  /** A list of trimmed entries is its own list of strips. */
  lemma StrippedFixed(xs: seq<string>)
    requires forall i :: 0 <= i < |xs| ==> Trimmed(xs[i])
    ensures Stripped(xs) == xs
  {
    forall i | 0 <= i < |xs| ensures Stripped(xs)[i] == xs[i] {
      StripFixed(xs[i]);
    }
  }

  /** Every entry the filter keeps is the strip of a field: it is trimmed and
      holds no character that no field holds. */
  lemma KeptEntries(fields: seq<string>, c: char)
    requires forall i :: 0 <= i < |fields| ==> c !in fields[i]
    ensures forall j :: 0 <= j < |NonEmpty(Stripped(fields))| ==>
      Trimmed(NonEmpty(Stripped(fields))[j]) && c !in NonEmpty(Stripped(fields))[j]
  {
    var ds := Stripped(fields);
    NonEmptyOrder(ds);
    forall j | 0 <= j < |NonEmpty(ds)| ensures Trimmed(NonEmpty(ds)[j]) && c !in NonEmpty(ds)[j] {
      var i := Kept(ds)[j];
      assert NonEmpty(ds)[j] == Strip(fields[i]);
      if c in Strip(fields[i]) {
        StripChars(fields[i], c);
      }
    }
  }

  /** `[d.strip() for d in s.split(",") if d.strip()]`: the shared body of
      both derived domain lists. Every entry is non-empty, has no surrounding
      whitespace and holds no comma, and there is at most one entry more than
      the input has commas. */
  function DomainsList(s: string): (r: seq<string>)
    ensures forall i :: 0 <= i < |r| ==> r[i] != "" && Trimmed(r[i]) && ',' !in r[i]
    ensures |r| <= Count(s, ',') + 1
  {
    var fields := Split(s, ',');
    KeptEntries(fields, ',');
    NonEmpty(Stripped(fields))
  }

  /** The parsed list is the strips of the non-blank comma-fields, in input
      order: its j-th entry is the strip of the field at the j-th kept
      position, the kept positions increase, and a field's position is kept
      exactly when the field is not blank. */
  lemma DomainsListOrder(s: string)
    ensures var fields := Split(s, ','); var ks := Kept(Stripped(fields));
      |DomainsList(s)| == |ks|
      && (forall j :: 0 <= j < |ks| ==> ks[j] < |fields| && DomainsList(s)[j] == Strip(fields[ks[j]]))
      && (forall j, k :: 0 <= j < k < |ks| ==> ks[j] < ks[k])
      && (forall i :: 0 <= i < |fields| ==> (!Blank(fields[i]) <==> i in ks))
  {
    var fields := Split(s, ',');
    assert DomainsList(s) == NonEmpty(Stripped(fields));
    NonEmptyOrder(Stripped(fields));
  }

  /** Re-joining a parsed list with commas and parsing it again gives the
      same list: the parser's output is a fixed point of the parser. */
  lemma DomainsListIdempotent(s: string)
    ensures DomainsList(Join(DomainsList(s), ',')) == DomainsList(s)
  {
    DomainsListJoin(DomainsList(s));
  }

  /** The filter keeps exactly the non-empty values among its entries. */
  lemma {:induction false} NonEmptyMembers(ds: seq<string>, d: string)
    ensures d in NonEmpty(ds) <==> d != "" && d in ds
  {
    if ds != [] {
      NonEmptyMembers(ds[1..], d);
      assert ds == [ds[0]] + ds[1..];
    }
  }

  /** An entry appears in the parsed list exactly when it is non-empty and is
      the strip of some comma-field of the input. */
  lemma DomainsListMembers(s: string, d: string)
    ensures d in DomainsList(s) <==> d != "" && d in Stripped(Split(s, ','))
  {
    assert DomainsList(s) == NonEmpty(Stripped(Split(s, ',')));
    NonEmptyMembers(Stripped(Split(s, ',')), d);
  }

  /** `allowed_domains_list`: the empty list for an empty setting, and
      otherwise the parsed list. The early return is redundant: the result is
      always the parsed list. */
  function AllowedDomainsList(st: Settings): (r: seq<string>)
    ensures r == DomainsList(st.allowedDomains)
  {
    if st.allowedDomains == "" then [] else DomainsList(st.allowedDomains)
  }

  /** `blocked_domains_list`: the parsed list, with no early return. It is
      the same function of its setting as `allowed_domains_list` is of its
      own. */
  function BlockedDomainsList(st: Settings): (r: seq<string>)
    ensures r == AllowedDomainsList(st.(allowedDomains := st.blockedDomains))
  {
    DomainsList(st.blockedDomains)
  }

  /** The default block-list setting is its five entries joined with commas. */
  lemma DefaultBlockedJoin()
    ensures Join(["localhost", "127.0.0.1", "10.0.0.0/8", "172.16.0.0/12", "192.168.0.0/16"], ',')
      == DefaultBlockedDomains
  {
    JoinSnoc(["localhost"], "127.0.0.1", ',');
    JoinSnoc(["localhost", "127.0.0.1"], "10.0.0.0/8", ',');
    JoinSnoc(["localhost", "127.0.0.1", "10.0.0.0/8"], "172.16.0.0/12", ',');
    JoinSnoc(["localhost", "127.0.0.1", "10.0.0.0/8", "172.16.0.0/12"], "192.168.0.0/16", ',');
  }

  /** Parsing a comma-join of entries that are non-empty, trimmed and free of
      commas gives back exactly those entries. */
  lemma DomainsListJoin(xs: seq<string>)
    requires forall i :: 0 <= i < |xs| ==> xs[i] != "" && Trimmed(xs[i]) && ',' !in xs[i]
    ensures DomainsList(Join(xs, ',')) == xs
  {
    if xs != [] {
      SplitJoin(xs, ',');
      StrippedFixed(xs);
      NonEmptyFixed(xs);
    }
  }

  /** The default block-list entries are non-empty, trimmed and free of
      commas. */
  lemma DefaultBlockedEntries()
    ensures var xs := ["localhost", "127.0.0.1", "10.0.0.0/8", "172.16.0.0/12", "192.168.0.0/16"];
      forall i :: 0 <= i < |xs| ==> xs[i] != "" && Trimmed(xs[i]) && ',' !in xs[i]
  {
  }

  /** With the default settings the block-list holds the loopback name and
      address and the three private IPv4 ranges, in this order. */
  lemma DefaultBlockedList()
    ensures BlockedDomainsList(Defaults())
      == ["localhost", "127.0.0.1", "10.0.0.0/8", "172.16.0.0/12", "192.168.0.0/16"]
  {
    var xs := ["localhost", "127.0.0.1", "10.0.0.0/8", "172.16.0.0/12", "192.168.0.0/16"];
    DefaultBlockedJoin();
    DefaultBlockedEntries();
    DomainsListJoin(xs);
  }

  // ---------------------------------------------------------------------------
  // Directory bootstrap
  // ---------------------------------------------------------------------------

  /** A `pathlib.Path` value, kept symbolic: the path built from a string, or
      the `.parent` of another path. How pathlib normalises the string is not
      interpreted. */
  datatype Path = Path(raw: string) | Parent(child: Path)

  const SqliteScheme: string := "sqlite:///"

  /** The database setting names an SQLite database. The truthiness half of
      the source's test (`database_url and ...`) adds nothing: an empty URL
      does not start with `sqlite`. */
  predicate IsSqliteUrl(url: Option<string>)
    ensures IsSqliteUrl(url) <==> url.Some? && url.value != "" && "sqlite" <= url.value
  {
    url.Some? && "sqlite" <= url.value
  }

  /** The list `dirs_to_create` built by `create_directories`: the parent of
      the vector store path, the cache path itself, the parent of the log
      file, and, only for an SQLite database URL, the parent of that URL with
      every `sqlite:///` removed, appended last. */
  method DirectoriesToCreate(st: Settings) returns (dirs: seq<Path>)
    ensures |dirs| == (if IsSqliteUrl(st.databaseUrl) then 4 else 3)
    ensures dirs[..3] == [Parent(Path(st.vectorDbPath)), Path(st.cachePath), Parent(Path(st.logFile))]
    ensures IsSqliteUrl(st.databaseUrl) ==>
      dirs[3] == Parent(Path(RemoveAll(st.databaseUrl.value, SqliteScheme)))
  {
    dirs := [Parent(Path(st.vectorDbPath)), Path(st.cachePath), Parent(Path(st.logFile))];
    if st.databaseUrl.Some? && st.databaseUrl.value != "" && "sqlite" <= st.databaseUrl.value {
      var dbPath := RemoveAll(st.databaseUrl.value, SqliteScheme);
      dirs := dirs + [Parent(Path(dbPath))];
    }
  }

  /** For a URL `sqlite:///p` in which the scheme does not occur again, the
      extra directory is the parent of `p`. */
  lemma SqliteDatabasePath(p: string)
    requires forall i :: 0 <= i <= |p| ==> !OccursAt(p, SqliteScheme, i)
    ensures IsSqliteUrl(Some(SqliteScheme + p))
    ensures RemoveAll(SqliteScheme + p, SqliteScheme) == p
  {
    RemoveLeading(SqliteScheme, p);
  }

  /** An async-driver URL such as `sqlite+aiosqlite:///./data/app.db` starts
      with `sqlite`, but the scheme removed is only its `sqlite:///` tail, so
      the path whose parent is created is `sqlite+aio./data/app.db`. */
  lemma AsyncDriverUrlPath()
    ensures IsSqliteUrl(Some("sqlite+aio" + SqliteScheme + "./data/app.db"))
    ensures RemoveAll("sqlite+aio" + SqliteScheme + "./data/app.db", SqliteScheme)
      == "sqlite+aio" + "./data/app.db"
  {
    var x, t := "sqlite+aio", "./data/app.db";
    forall i | 0 <= i < |x| ensures !OccursAt(x + SqliteScheme + t, SqliteScheme, i) {
      assert (x + SqliteScheme + t)[i + 6] != SqliteScheme[6];
    }
    forall i | 0 <= i <= |t| ensures !OccursAt(t, SqliteScheme, i) {
      if i + |SqliteScheme| <= |t| {
        assert t[i] != SqliteScheme[0];
      }
    }
    RemoveAllFirst(x, SqliteScheme, t);
    RemoveAllAbsent(t, SqliteScheme);
  }
}
