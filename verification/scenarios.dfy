/**
 * Worked runs of the name matcher on small inputs: what the report holds for
 * a given master payload and candidate feed. Each literal computation is a
 * lemma of its own.
 */
module Scenarios {
  import opened JavaString
  import opened NameNormalizer
  import opened Master
  import opened Candidates
  import opened CompareUniversityNames

  /** Only the case of a tidy name changes. */
  lemma OhioNormalized()
    ensures Normalize("Ohio State University") == "ohio state university"
  {
    assert IsTidy("Ohio State University");
    assert ToLowerCase("Ohio State University") == "ohio state university";
    TidyNormalizesToLowerCase("Ohio State University");
  }

  lemma MitNormalized()
    ensures Normalize("MIT") == "mit"
  {
    assert IsTidy("MIT");
    assert ToLowerCase("MIT") == "mit";
    TidyNormalizesToLowerCase("MIT");
  }

  lemma OhioHasNoComma()
    ensures ',' !in "Ohio State University"
  {
  }

  /** The rows after the header have no comma, so each is read whole. */
  lemma FeedOneNames()
    ensures CandidateNames(["Name", "Ohio State University", "MIT"]) == ["Ohio State University", "MIT"]
  {
    var feed := ["Name", "Ohio State University", "MIT"];
    OhioHasNoComma();
    assert ',' !in feed[1] && ',' !in feed[2];
    assert !CommaOnly(feed[1]) by { assert feed[1][0] in feed[1]; }
    assert !CommaOnly(feed[2]) by { assert feed[2][0] in feed[2]; }
    assert ReadsToEnd(feed);
    CandidatesOfReadableFeed(feed);
  }

  lemma MasterOne()
    ensures NormalizeAll([University("Ohio State University")]) == ["ohio state university"]
  {
    OhioNormalized();
  }

  /**
   * A master list holding "Ohio State University" and the feed
   * Name / Ohio State University / MIT: the matching name is dropped and
   * "MIT" is reported.
   */
  lemma OneMatchOneMiss()
    ensures Missing(NormalizeAll([University("Ohio State University")]),
                    CandidateNames(["Name", "Ohio State University", "MIT"])) == ["MIT"]
  {
    MasterOne();
    FeedOneNames();
    OneMatchOneMissNames();
  }

  lemma OneMatchOneMissNames()
    ensures Missing(["ohio state university"], ["Ohio State University", "MIT"]) == ["MIT"]
  {
    OhioNormalized();
    MitNormalized();
    ReportOfTwo(["ohio state university"], "Ohio State University", "MIT");
  }

  lemma AmpersandSplit()
    ensures "A&B College" == "A" + ['&'] + "B College"
  {
  }

  lemma JoinedIsTidy()
    ensures IsTidy("A" + "B College")
  {
    assert "A" + "B College" == "AB College";
  }

  lemma JoinedLowered()
    ensures ToLowerCase("A" + "B College") == "ab college"
  {
    assert "A" + "B College" == "AB College";
  }

  /** "A&B College" loses its '&' and its two first words run together. */
  lemma AmpersandJoined()
    ensures Normalize("A&B College") == "ab college"
  {
    AmpersandSplit();
    JoinedIsTidy();
    DeletedCharJoinsNeighbours("A", '&', "B College");
    JoinedLowered();
  }

  lemma SpacedSplit()
    ensures "A & B College" == "A" + " " + ['&'] + " " + "B College"
  {
  }

  lemma SpacedLowered()
    ensures ToLowerCase("A" + " " + "B College") == "a b college"
  {
    assert "A" + " " + "B College" == "A B College";
  }

  /** "A & B College" keeps a space where the '&' and its spaces were. */
  lemma AmpersandSpaced()
    ensures Normalize("A & B College") == "a b college"
  {
    SpacedSplit();
    assert IsTidy("A") && IsTidy("B College");
    SpacedCharKeepsNeighboursApart("A", '&', "B College");
    SpacedLowered();
  }

  /**
   * "A & B  College", with a double space before the last word: the '&'
   * leaves one space behind and the double space collapses, so the name
   * normalises as "A & B College" does.
   */
  lemma AmpersandDoubleSpaced()
    ensures Normalize("A & B  College") == "a b college"
  {
    assert "A & B" + "  " + "College" == "A & B  College";
    assert "A & B" + " " + "College" == "A & B College";
    DoubleSpaceNormalizesAsSingle("A & B", "College");
    AmpersandSpaced();
  }

  /** The two spellings of the same college do not match: the candidate is reported. */
  lemma AmpersandSpellingsDiffer()
    ensures Missing([Normalize("A&B College")], ["A & B College"]) == ["A & B College"]
  {
    AmpersandJoined();
    AmpersandSpaced();
    MissingSnoc([Normalize("A&B College")], [], "A & B College");
    assert [] + ["A & B College"] == ["A & B College"];
  }

  /** A comma-only row stops the reading: the names after it are never read. */
  lemma CommaOnlyRowStopsFeed()
    ensures CandidateNames(["Name", "MIT", ",,", "Yale"]) == ["MIT"]
    ensures !ReadsToEnd(["Name", "MIT", ",,", "Yale"])
  {
    var feed := ["Name", "MIT", ",,", "Yale"];
    var body := feed[1..];
    assert body == ["MIT", ",,", "Yale"];
    assert !CommaOnly(body[0]) by { assert body[0][0] != ','; }
    assert CommaOnly(body[1]);
    assert FirstCommaOnly(body) == 1;
    assert ',' !in body[0];
    assert body[..1] == ["MIT"];
    ReadsToEndIff(feed);
  }
}
