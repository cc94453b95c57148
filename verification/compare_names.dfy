/**
 * CompareUniversityNamesWithMaster: builds the master list, opens the
 * candidate feed, then pulls candidate names one at a time and reports, in
 * feed order and as read, every name whose normalised form is not in the
 * master list.
 */
module CompareUniversityNames {
  import opened Wrappers
  import opened NameNormalizer
  import opened Master
  import opened Candidates

  /** How a run ends. */
  datatype Outcome =
    | Completed           // every candidate row was read
    | MalformedRow        // a comma-only row stopped the run (split(",")[0] throws in getNextName)
    | MasterUnavailable   // the master payload did not parse (Java's sortList throws on the null list before any candidate is read)

  /** What compareName makes main print for one name: the name itself when it is not matched, nothing otherwise. */
  function ReportFor(master: seq<string>, x: string): (r: seq<string>)
    ensures r == [] <==> Normalize(x) in master
  {
    if Normalize(x) in master then [] else [x]
  }

  /** The candidates, as read, whose normalised form is not among the master names. */
  function Missing(master: seq<string>, names: seq<string>): (report: seq<string>)
    ensures |report| <= |names|
  {
    if names == [] then [] else ReportFor(master, names[0]) + Missing(master, names[1..])
  }

  /** A name is reported exactly when it is a candidate whose normalised form is not a master name. */
  lemma {:induction false} MissingMembers(master: seq<string>, names: seq<string>)
    ensures forall x :: x in Missing(master, names) <==> x in names && Normalize(x) !in master
  {
    if names != [] {
      MissingMembers(master, names[1..]);
      assert names == [names[0]] + names[1..];
    }
  }

  /** Reporting keeps the candidates' order: the report of a concatenation is the concatenation of the reports. */
  lemma {:induction false} MissingAppend(master: seq<string>, a: seq<string>, b: seq<string>)
    ensures Missing(master, a + b) == Missing(master, a) + Missing(master, b)
  {
    if a == [] {
      assert a + b == b;
    } else {
      assert (a + b)[0] == a[0] && (a + b)[1..] == a[1..] + b;
      MissingAppend(master, a[1..], b);
    }
  }

  /** Only membership in the master list matters, not its order or its duplicates. */
  lemma {:induction false} MissingDependsOnMembership(m1: seq<string>, m2: seq<string>, names: seq<string>)
    requires forall x :: x in m1 <==> x in m2
    ensures Missing(m1, names) == Missing(m2, names)
  {
    if names != [] {
      MissingDependsOnMembership(m1, m2, names[1..]);
    }
  }

  /** Against an empty master list every candidate is reported. */
  lemma {:induction false} EmptyMasterReportsAll(names: seq<string>)
    ensures Missing([], names) == names
  {
    if names != [] {
      EmptyMasterReportsAll(names[1..]);
      assert names == [names[0]] + names[1..];
    }
  }

  /** The report on a single candidate. */
  lemma MissingOne(master: seq<string>, x: string)
    ensures Missing(master, [x]) == ReportFor(master, x)
  {
    assert [x][1..] == [];
  }

  /** One more candidate adds its own report at the end. */
  lemma MissingSnoc(master: seq<string>, names: seq<string>, x: string)
    ensures Missing(master, names + [x]) == Missing(master, names) + ReportFor(master, x)
  {
    MissingAppend(master, names, [x]);
    MissingOne(master, x);
  }

  /** The report on two candidates, one decision per candidate. */
  lemma ReportOfTwo(master: seq<string>, x: string, y: string)
    ensures Missing(master, [x, y]) == ReportFor(master, x) + ReportFor(master, y)
  {
    assert [x, y][1..] == [y];
    MissingOne(master, y);
  }

  /**
   * A candidate made only of spaces and punctuation is matched, not reported,
   * as soon as some master record is made only of spaces and punctuation too:
   * both normalise to the empty key.
   */
  lemma BlankCandidateMatchesBlankRecord(records: seq<University>, i: nat, x: string)
    requires i < |records|
    requires forall k :: 0 <= k < |records[i].name| ==> records[i].name[k] == ' ' || !Allowed(records[i].name[k])
    requires forall k :: 0 <= k < |x| ==> x[k] == ' ' || !Allowed(x[k])
    ensures Missing(NormalizeAll(records), [x]) == []
  {
    BlankRecordListsEmptyKey(records, i);
    BlankNormalizesToEmpty(x);
    MissingOne(NormalizeAll(records), x);
  }

  /** Concatenation regroups freely. */
  lemma ConcatAssoc(a: seq<string>, b: seq<string>, c: seq<string>)
    ensures a + (b + c) == (a + b) + c
  {
  }

  /**
   * The loop of main: read names until the feed runs out, and report every
   * name compareName rejects, as read. The report is the Missing filter of the
   * names still to be read, and the run completes exactly when no comma-only
   * row is among them.
   */
  method Reconcile(master: MasterData, feed: UniversityNames) returns (report: seq<string>, outcome: Outcome)
    requires master.Valid() && master.universities != null
    requires feed.Valid()
    modifies feed
    ensures feed.Valid() && feed.rows == old(feed.rows)
    ensures report == Missing(master.universities[..], StreamNames(old(feed.Pending())))
    ensures outcome != MasterUnavailable
    ensures outcome == Completed <==> FirstCommaOnly(old(feed.Pending())) == |old(feed.Pending())|
    ensures outcome == Completed ==> feed.Pending() == []
  {
    ghost var rows, pending := feed.rows, feed.Pending();
    ghost var entries := master.universities[..];
    ghost var read: seq<string> := [];
    report := [];
    var next := feed.GetNextName();
    StreamUnfold(pending);
    while next.Name?
      invariant feed.Valid() && feed.rows == rows
      invariant report == Missing(entries, read)
      invariant read + StreamFrom(next, feed.Pending()) == StreamNames(pending)
      invariant (FirstCommaOnly(pending) == |pending|) <==> ReadsOnFrom(next, feed.Pending())
      invariant next.Exhausted? ==> feed.Pending() == []
      decreases |feed.Pending()|, if next.Name? then 1 else 0
    {
      var found := master.CompareName(next.name);
      ghost var unread := feed.Pending();
      MissingSnoc(entries, read, next.name);
      ConcatAssoc(read, [next.name], StreamNames(unread));
      if !found {
        report := report + [next.name];
      }
      read := read + [next.name];
      next := feed.GetNextName();
      StreamUnfold(unread);
    }
    assert read + [] == read;
    outcome := if next.Exhausted? then Completed else MalformedRow;
  }

  /**
   * main: build the master list first, then open the candidate feed and run
   * the loop. The report is every candidate name of the feed whose normalised
   * form matches no normalised master record, in feed order and as read.
   */
  method CompareWithMaster(payload: Option<seq<University>>, feed: seq<string>) returns (report: seq<string>, outcome: Outcome)
    ensures payload.None? ==> report == [] && outcome == MasterUnavailable
    ensures payload.Some? ==> report == Missing(NormalizeAll(payload.value), CandidateNames(feed))
    ensures payload.Some? ==> (outcome == Completed <==> ReadsToEnd(feed)) && outcome != MasterUnavailable
  {
    var masterData := new MasterData();
    masterData.BuildList(payload);
    if masterData.universities == null {
      return [], MasterUnavailable;
    }
    var universityNames := new UniversityNames(feed);
    report, outcome := Reconcile(masterData, universityNames);
    SameMultisetSameMembers(masterData.universities[..], NormalizeAll(payload.value));
    MissingDependsOnMembership(masterData.universities[..], NormalizeAll(payload.value), CandidateNames(feed));
    ReadsToEndIff(feed);
  }
}
