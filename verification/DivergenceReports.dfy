/**
  Applying a divergence report for a data center: a report with the content already stored
  only touches timestamps, unless decisions were submitted; anything else supersedes the
  stored entries and drops their decisions.

  Values are compared after trimming, so they are taken as trimmed; the key that joins
  entity and field with a bar is a pair here.
*/
module DivergenceReports {
  import opened Common

  type DcId(==, !new)
  type EntityId(==, !new)
  type FieldName(==, !new)
  type Datum(==, !new)

  type Key = (EntityId, FieldName)

  datatype Override = Override(key: Key, value: Datum)

  datatype Stored = Stored(value: Datum, publishedAt: nat)

  /** The entries table, unique per data center, entity and field, and the decisions, unique per entity and field. */
  datatype Db = Db(entries: map<DcId, map<Key, Stored>>, resolutions: set<Key>, superseded: nat)

  function RowsOf(db: Db, dc: DcId): map<Key, Stored> {
    if dc in db.entries then db.entries[dc] else map[]
  }

  function EntriesOf(db: Db, dc: DcId): map<Key, Datum> {
    map k | k in RowsOf(db, dc) :: RowsOf(db, dc)[k].value
  }

  predicate DistinctKeys(report: seq<Override>) {
    forall i, j | 0 <= i < j < |report| :: report[i].key != report[j].key
  }

  function Content(report: seq<Override>): map<Key, Datum> {
    if report == [] then map[]
    else Content(report[..|report| - 1])[report[|report| - 1].key := report[|report| - 1].value]
  }

  // ---- Comparing content ----

  /** `contentEqual`: as many entries, and every reported one stored with its value. */
  method ContentEqual(existing: map<Key, Datum>, report: seq<Override>) returns (same: bool)
    ensures same <==> LooksEqual(existing, report)
  {
    if |existing| != |report| { return false; }
    for i := 0 to |report|
      invariant forall k | 0 <= k < i :: report[k].key in existing && existing[report[k].key] == report[k].value
    {
      if report[i].key !in existing { return false; }
      if existing[report[i].key] != report[i].value { return false; }
    }
    return true;
  }

  predicate LooksEqual(existing: map<Key, Datum>, report: seq<Override>) {
    |existing| == |report|
    && forall k | 0 <= k < |report| :: report[k].key in existing && existing[report[k].key] == report[k].value
  }

  lemma {:induction false} ContentAt(report: seq<Override>, key: Key)
    ensures key in Content(report) <==> exists k :: 0 <= k < |report| && report[k].key == key
    ensures key in Content(report) ==> exists k :: 0 <= k < |report| && report[k] == Override(key, Content(report)[key])
    ensures DistinctKeys(report) ==> forall k | 0 <= k < |report| && report[k].key == key ::
      Content(report)[key] == report[k].value
  {
    if report != [] {
      var n := |report| - 1;
      var front := report[..n];
      ContentAt(front, key);
      assert forall k | 0 <= k < n :: front[k] == report[k];
      assert report[n].key in Content(report);
    }
  }

  /** A report has as many entries as distinct keys exactly when no key repeats. */
  lemma {:induction false} ContentSize(report: seq<Override>)
    ensures |Content(report)| <= |report|
    ensures |Content(report)| == |report| <==> DistinctKeys(report)
  {
    if report != [] {
      var n := |report| - 1;
      var front := report[..n];
      ContentSize(front);
      OneMoreSize(Content(front), report[n]);
      DistinctOneMore(report);
    }
  }

  lemma OneMoreSize(before: map<Key, Datum>, o: Override)
    ensures |before[o.key := o.value]| == |before| + if o.key in before then 0 else 1
  {
    var after := before[o.key := o.value];
    if o.key in before {
      assert after.Keys == before.Keys;
      SameKeys(after, before);
    } else {
      assert after.Keys == before.Keys + {o.key};
    }
  }

  lemma DistinctOneMore(report: seq<Override>)
    requires report != []
    ensures var n := |report| - 1;
            DistinctKeys(report) <==> DistinctKeys(report[..n]) && report[n].key !in Content(report[..n])
  {
    var n := |report| - 1;
    var front := report[..n];
    ContentAt(front, report[n].key);
    assert forall k | 0 <= k < n :: front[k] == report[k];
    if report[n].key in Content(front) {
      var k :| 0 <= k < n && front[k].key == report[n].key;
      assert report[k].key == report[n].key;
    }
  }

  lemma SameKeys(a: map<Key, Datum>, b: map<Key, Datum>)
    requires a.Keys == b.Keys
    ensures |a| == |b|
  {
    assert |a| == |a.Keys| && |b| == |b.Keys|;
  }

  lemma Filled<T>(a: set<T>, b: set<T>)
    requires a <= b && |a| == |b|
    ensures a == b
  {
    assert b == a + (b - a);
    assert |b| == |a| + |b - a|;
  }

  /**
    The comparison answers equality of content, whatever is stored, exactly when the report
    repeats no key. A report that repeats one is taken to differ from its own content.
  */
  lemma ComparisonIsRightIff(report: seq<Override>)
    ensures (forall existing: map<Key, Datum> :: LooksEqual(existing, report) <==> existing == Content(report))
       <==> DistinctKeys(report)
  {
    if DistinctKeys(report) {
      forall existing: map<Key, Datum>
        ensures LooksEqual(existing, report) <==> existing == Content(report)
      {
        EqualIfDistinct(existing, report);
      }
    } else {
      ContentSize(report);
      assert !LooksEqual(Content(report), report);
    }
  }

  lemma EqualIfDistinct(existing: map<Key, Datum>, report: seq<Override>)
    requires DistinctKeys(report)
    ensures LooksEqual(existing, report) <==> existing == Content(report)
  {
    ContentSize(report);
    forall k | 0 <= k < |report|
      ensures report[k].key in Content(report) && Content(report)[report[k].key] == report[k].value
    {
      ContentAt(report, report[k].key);
    }
    if LooksEqual(existing, report) {
      forall key | key in Content(report)
        ensures key in existing && existing[key] == Content(report)[key]
      {
        ContentAt(report, key);
      }
      Filled(Content(report).Keys, existing.Keys);
    }
  }

  // ---- Applying ----

  function Touched(db: Db, dc: DcId, report: seq<Override>, at: nat): Db {
    db.(entries := db.entries[dc := map k | k in RowsOf(db, dc) ::
          if Reports(report, k) then RowsOf(db, dc)[k].(publishedAt := at) else RowsOf(db, dc)[k]])
  }

  predicate Reports(report: seq<Override>, key: Key) {
    exists k :: 0 <= k < |report| && report[k].key == key
  }

  function Superseded(db: Db, dc: DcId, report: seq<Override>, at: nat): Db {
    Db(db.entries[dc := map k | k in Content(report) :: Stored(Content(report)[k], at)],
       db.resolutions - EntriesOf(db, dc).Keys, db.superseded + 1)
  }

  /** Some decision is recorded for an entity this data center reports; the field is not compared. */
  predicate HasResolutions(db: Db, dc: DcId) {
    exists r :: r in db.resolutions && exists k :: k in EntriesOf(db, dc) && k.0 == r.0
  }

  /** `None` when an insert breaks the unique index: the transaction rolls back and nothing changes. */
  function Applied(db: Db, dc: DcId, report: seq<Override>, at: nat): Option<Db> {
    if LooksEqual(EntriesOf(db, dc), report) && !HasResolutions(db, dc) then Some(Touched(db, dc, report, at))
    else if DistinctKeys(report) then Some(Superseded(db, dc, report, at))
    else None
  }

  class Tables {
    var db: Db

    constructor (db: Db)
      ensures this.db == db
    {
      this.db := db;
    }

    /** Applies a report in place, or leaves everything as it was. */
    method ApplyReport(dc: DcId, report: seq<Override>, at: nat) returns (ok: bool)
      modifies this
      ensures ok <==> Applied(old(db), dc, report, at).Some?
      ensures db == if ok then Applied(old(db), dc, report, at).value else old(db)
    {
      var existing := EntriesOf(db, dc);
      var same := ContentEqual(existing, report);
      if same && !HasResolutions(db, dc) {
        var touched := Touch(RowsOf(db, dc), report, at);
        db := db.(entries := db.entries[dc := touched]);
        return true;
      }
      var kept := DropDecisions(db.resolutions, existing.Keys);
      var inserted, clash := InsertAll(report, at);
      if clash {
        return false;
      }
      db := Db(db.entries[dc := inserted], kept, db.superseded + 1);
      return true;
    }
  }

  method Touch(rows: map<Key, Stored>, report: seq<Override>, at: nat) returns (touched: map<Key, Stored>)
    ensures touched == map k | k in rows :: if Reports(report, k) then rows[k].(publishedAt := at) else rows[k]
  {
    touched := rows;
    for i := 0 to |report|
      invariant touched.Keys == rows.Keys
      invariant forall k | k in rows ::
        touched[k] == if Reports(report[..i], k) then rows[k].(publishedAt := at) else rows[k]
    {
      var key := report[i].key;
      forall k | k in rows
        ensures Reports(report[..i + 1], k) <==> Reports(report[..i], k) || k == key
      {
        ReportsMore(report, i, k);
      }
      if key in touched {
        touched := touched[key := touched[key].(publishedAt := at)];
      }
    }
    assert report[..|report|] == report;
  }

  lemma ReportsMore(report: seq<Override>, i: nat, k: Key)
    requires i < |report|
    ensures Reports(report[..i + 1], k) <==> Reports(report[..i], k) || k == report[i].key
  {
    var longer, shorter := report[..i + 1], report[..i];
    assert longer[i] == report[i];
    assert forall j | 0 <= j < i :: longer[j] == shorter[j];
  }

  method DropDecisions(resolutions: set<Key>, keys: set<Key>) returns (kept: set<Key>)
    ensures kept == resolutions - keys
  {
    kept := resolutions;
    var todo := keys;
    while todo != {}
      invariant todo <= keys && kept == resolutions - (keys - todo)
      decreases todo
    {
      var k :| k in todo;
      kept := kept - {k};
      todo := todo - {k};
    }
  }

  /** Inserts until a key repeats. */
  method InsertAll(report: seq<Override>, at: nat) returns (rows: map<Key, Stored>, clash: bool)
    ensures clash <==> !DistinctKeys(report)
    ensures !clash ==> rows == map k | k in Content(report) :: Stored(Content(report)[k], at)
  {
    rows := map[];
    for i := 0 to |report|
      invariant DistinctKeys(report[..i])
      invariant rows == map k | k in Content(report[..i]) :: Stored(Content(report[..i])[k], at)
    {
      var front := report[..i];
      assert report[..i + 1][..i] == front;
      ContentAt(front, report[i].key);
      if report[i].key in rows {
        var k :| 0 <= k < i && front[k].key == report[i].key;
        assert report[k].key == report[i].key;
        return rows, true;
      }
      assert forall k | 0 <= k < i :: front[k] == report[k];
      rows := rows[report[i].key := Stored(report[i].value, at)];
    }
    assert report[..|report|] == report;
    return rows, false;
  }

  lemma EntriesAfterSupersede(db: Db, dc: DcId, report: seq<Override>, at: nat)
    ensures EntriesOf(Superseded(db, dc, report, at), dc) == Content(report)
    ensures forall other | other != dc :: EntriesOf(Superseded(db, dc, report, at), other) == EntriesOf(db, other)
  {
    forall other | other != dc
      ensures EntriesOf(Superseded(db, dc, report, at), other) == EntriesOf(db, other)
    {
      assert RowsOf(Superseded(db, dc, report, at), other) == RowsOf(db, other);
    }
  }

  lemma EntriesAfterTouch(db: Db, dc: DcId, report: seq<Override>, at: nat)
    ensures forall any :: EntriesOf(Touched(db, dc, report, at), any) == EntriesOf(db, any)
  {
    forall any
      ensures EntriesOf(Touched(db, dc, report, at), any) == EntriesOf(db, any)
    {
      assert any != dc ==> RowsOf(Touched(db, dc, report, at), any) == RowsOf(db, any);
    }
  }

  /** An applied report is what is stored, and no other data center's entries move. */
  lemma AppliedIsStored(db: Db, dc: DcId, report: seq<Override>, at: nat)
    requires DistinctKeys(report)
    ensures Applied(db, dc, report, at).Some?
    ensures EntriesOf(Applied(db, dc, report, at).value, dc) == Content(report)
    ensures forall other | other != dc :: EntriesOf(Applied(db, dc, report, at).value, other) == EntriesOf(db, other)
  {
    EqualIfDistinct(EntriesOf(db, dc), report);
    EntriesAfterSupersede(db, dc, report, at);
    EntriesAfterTouch(db, dc, report, at);
  }

  /**
    Why a report must not be applied twice: applying it again, after operators have decided
    on some of its entries, drops decisions exactly when one of them is on a reported entry.
    The entries themselves come out the same.
  */
  lemma SecondApplyDropsDecisionsIff(db: Db, dc: DcId, report: seq<Override>, at: nat, decided: set<Key>)
    requires DistinctKeys(report)
    ensures var once := Applied(db, dc, report, at).value;
            var later := once.(resolutions := once.resolutions + decided);
            var twice := Applied(later, dc, report, at);
            && twice.Some? && EntriesOf(twice.value, dc) == EntriesOf(once, dc)
            && (twice.value.resolutions != later.resolutions
                <==> exists k :: k in later.resolutions && k in Content(report))
  {
    AppliedIsStored(db, dc, report, at);
    var once := Applied(db, dc, report, at).value;
    var later := once.(resolutions := once.resolutions + decided);
    assert EntriesOf(later, dc) == EntriesOf(once, dc);
    AppliedIsStored(later, dc, report, at);
    if k :| k in later.resolutions && k in Content(report) {
      assert HasResolutions(later, dc);
    }
  }

  /** The report brings nothing new to the data center, and nobody decided on an entity it reports. */
  ghost predicate Quiet(db: Db, dc: DcId, report: seq<Override>) {
    && EntriesOf(db, dc) == Content(report)
    && forall r, k | r in db.resolutions && k in EntriesOf(db, dc) :: r.0 != k.0
  }

  /**
    Whose decisions a report drops, and what it leaves: every decision stays unless the
    report is not quiet and the decision is on an entry the data center had; none is added.
    Every entry of the data center carries the report's time; other centers' rows, times
    included, are as they were; a supersede is recorded exactly when the report is not quiet.
  */
  lemma WhatAReportLeaves(db: Db, dc: DcId, report: seq<Override>, at: nat)
    requires DistinctKeys(report)
    ensures Applied(db, dc, report, at).Some?
    ensures var after := Applied(db, dc, report, at).value;
            && (forall k :: k in after.resolutions
                  <==> k in db.resolutions && (Quiet(db, dc, report) || k !in EntriesOf(db, dc)))
            && (forall k | k in RowsOf(after, dc) :: RowsOf(after, dc)[k].publishedAt == at)
            && (forall other | other != dc :: RowsOf(after, other) == RowsOf(db, other))
            && after.superseded == db.superseded + if Quiet(db, dc, report) then 0 else 1
  {
    EqualIfDistinct(EntriesOf(db, dc), report);
    assert Quiet(db, dc, report) <==> LooksEqual(EntriesOf(db, dc), report) && !HasResolutions(db, dc);
    if Quiet(db, dc, report) {
      forall k | k in RowsOf(db, dc)
        ensures Reports(report, k)
      {
        assert k in EntriesOf(db, dc);
        ContentAt(report, k);
      }
    }
  }

  /** Whatever repeats in a report that is applied: its entries carry its time, and any other entry its old one. */
  lemma OnlyReportedAreTouched(db: Db, dc: DcId, report: seq<Override>, at: nat, k: Key)
    requires Applied(db, dc, report, at).Some? && k in RowsOf(Applied(db, dc, report, at).value, dc)
    ensures var reported := exists j :: 0 <= j < |report| && report[j].key == k;
            && (reported || k in RowsOf(db, dc))
            && RowsOf(Applied(db, dc, report, at).value, dc)[k].publishedAt
            == if reported then at else RowsOf(db, dc)[k].publishedAt
  {
    ContentAt(report, k);
  }

  /** A report that repeats a key is refused, unless it happens to look like what is stored and nobody decided. */
  lemma RefusedIff(db: Db, dc: DcId, report: seq<Override>, at: nat)
    ensures Applied(db, dc, report, at).None?
       <==> (&& !DistinctKeys(report)
             && !(LooksEqual(EntriesOf(db, dc), report)
                  && forall r, k | r in db.resolutions && k in EntriesOf(db, dc) :: r.0 != k.0))
  {
  }
}
