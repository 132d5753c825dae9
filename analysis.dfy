/** The analysis driver: for every database named in the keyspace reply, the
    keys are grouped and measured, the groups are copied into a slice, the
    slice is sorted by size and stored as that database's report. The store
    itself is reached through three parameters: the INFO keyspace reply, the
    scan that lists a database's keys and the per-key introspection call. */
module Analysis {
  import opened KeyGrouping
  import opened KeySize
  import opened Aggregation
  import opened ReportSort
  import opened Keyspace

  /** What a database's report is: every group of its keys exactly once, the
      largest first. */
  ghost predicate IsDatabaseReport(s: seq<Report>, obs: seq<Observation>)
  {
    SortedBySize(s) && ExactlyOnce(s, Aggregate(obs))
  }

  /** Every scanned key of every database gets a parseable introspection reply. */
  predicate ScansReadable(databases: map<nat, int>, scan: (nat, int) -> seq<string>,
                          debugObject: string -> DebugReply)
  {
    forall db :: db in databases ==> RepliesWellFormed(scan(db, databases[db]), debugObject)
  }

  /** Each database of `dbs` has its report in `reports`, built from the keys
      its scan returns. */
  ghost predicate Reported(reports: map<nat, seq<Report>>, dbs: set<nat>, databases: map<nat, int>,
                           delimiters: seq<string>, scan: (nat, int) -> seq<string>,
                           debugObject: string -> DebugReply)
    requires ValidDelimiters(delimiters) && ScansReadable(databases, scan, debugObject)
  {
    forall db :: db in dbs && db in databases ==>
      db in reports &&
      IsDatabaseReport(reports[db], Observations(delimiters, scan(db, databases[db]), debugObject))
  }

  /** `reports` differs from `prior` at most on `dbs`, and only by adding them. */
  predicate UpdatedOnly(reports: map<nat, seq<Report>>, prior: map<nat, seq<Report>>, dbs: set<nat>)
  {
    reports.Keys == prior.Keys + dbs &&
    forall d :: d in prior && d !in dbs ==> reports[d] == prior[d]
  }

  /** The reports of all analysed databases, by database number. */
  class ReportSet {
    var reports: map<nat, seq<Report>>

    constructor ()
      ensures reports == map[]
    {
      reports := map[];
    }

    /** The body of the database loop for one database `db` whose scan
        returned `keys`: the report of `db` is replaced, the others stay. */
    method AnalyzeDatabase(db: nat, delimiters: seq<string>, keys: seq<string>,
                           debugObject: string -> DebugReply)
      requires ValidDelimiters(delimiters) && RepliesWellFormed(keys, debugObject)
      modifies this
      ensures reports.Keys == old(reports).Keys + {db}
      ensures forall d :: d in old(reports) && d != db ==> reports[d] == old(reports)[d]
      ensures IsDatabaseReport(reports[db], Observations(delimiters, keys, debugObject))
    {
      var mr := AggregateKeys(delimiters, keys, debugObject);
      AggregateKeyed(Observations(delimiters, keys, debugObject));
      var sr := CollectReports(mr);
      var a := new Report[|sr|](i requires 0 <= i < |sr| => sr[i]);
      assert a[..] == sr;
      SortBySize(a);
      reports := reports[db := a[..]];
    }

    /** One turn of the database loop: database `db`, not yet analysed, is
        analysed after those of `done`. */
    method AnalyzeNext(db: nat, done: set<nat>, databases: map<nat, int>, ghost prior: map<nat, seq<Report>>,
                       delimiters: seq<string>, scan: (nat, int) -> seq<string>,
                       debugObject: string -> DebugReply)
      requires ValidDelimiters(delimiters) && ScansReadable(databases, scan, debugObject)
      requires db in databases && db !in done
      requires UpdatedOnly(reports, prior, done)
      requires Reported(reports, done, databases, delimiters, scan, debugObject)
      modifies this
      ensures UpdatedOnly(reports, prior, done + {db})
      ensures Reported(reports, done + {db}, databases, delimiters, scan, debugObject)
    {
      var keyCount := databases[db];
      var keys := scan(db, keyCount);
      AnalyzeDatabase(db, delimiters, keys, debugObject);
    }

    /** The analysis of every database the keyspace parser finds in the
        reply, in any order. */
    method Start(delimiters: seq<string>, info: string, scan: (nat, int) -> seq<string>,
                 debugObject: string -> DebugReply)
      requires ValidDelimiters(delimiters)
      requires |info| >= HeaderLength && LinesReadable(KeyspaceLines(info))
      requires ScansReadable(Databases(KeyspaceLines(info)), scan, debugObject)
      modifies this
      ensures var databases := Databases(KeyspaceLines(info));
        UpdatedOnly(reports, old(reports), databases.Keys) &&
        Reported(reports, databases.Keys, databases, delimiters, scan, debugObject)
    {
      var databases := GetDatabases(info);
      var pending := databases.Keys;
      while pending != {}
        invariant pending <= databases.Keys
        invariant UpdatedOnly(reports, old(reports), databases.Keys - pending)
        invariant Reported(reports, databases.Keys - pending, databases, delimiters, scan, debugObject)
        decreases pending
      {
        var db :| db in pending;
        AnalyzeNext(db, databases.Keys - pending, databases, old(reports), delimiters, scan, debugObject);
        assert databases.Keys - pending + {db} == databases.Keys - (pending - {db});
        pending := pending - {db};
      }
    }
  }
}
