/**
 * The badge colours of the dashboard's tables: the status and detail
 * badges of a recent transfer, and the status badge of a row of the
 * suspicious tokens table.
 */
module Badges {
  import opened Records
  import opened Projection

  const Red: string := "#b71c1c"
  const Green: string := "#2e7d32"
  const Yellow: string := "#FFD700"
  const Navy: string := "#102E50"

  /** The detail tags shown in red. */
  const AlarmingDetails: seq<string> := ["Phishing", "Fake_Native", "Fake_Stablecoin"]

  /** The status badge of a recent transfer: red for a tag other than "Caution" unless safe, green when safe, yellow otherwise. */
  function StatusColour(row: RecentRow): string {
    if row.tag != "" && row.tag != Caution && !row.safe then Red
    else if row.safe then Green
    else Yellow
  }

  /** The detail badge of a recent transfer: red for the three alarming details, navy otherwise. */
  function DetailColour(detail: string): string {
    if detail in AlarmingDetails then Red else Navy
  }

  /** The status badge of a row of the suspicious tokens table: red unless its tag is "Caution". */
  function TokenStatusColour(tag: string): string {
    if tag != Caution then Red else Yellow
  }

  /**
   * The status badge of a projected record: green exactly for safe
   * transfers, red exactly for suspicious ones with a tag other than
   * "Caution", yellow for the rest.
   */
  lemma RecordStatusColour(t: Transfer, susp: seq<Joined>, safe: seq<Joined>)
    ensures var r := ProjectRow(t, susp, safe);
      var c := StatusColour(r);
      && (c == Green <==> r.safe)
      && (c == Red <==> r.suspicious && r.tag != Caution)
      && (c == Yellow <==> !r.safe && (!r.suspicious || r.tag == Caution))
  {
    ProjectRowSpec(t, susp, safe);
  }

  /** A red detail badge is only ever shown for a transfer one of the joins flagged. */
  lemma RecordDetailColour(t: Transfer, susp: seq<Joined>, safe: seq<Joined>)
    ensures var r := ProjectRow(t, susp, safe);
      DetailColour(r.tag1) == Red ==> r.suspicious || r.safe
  {
    ProjectRowSpec(t, susp, safe);
    assert NoDetail !in AlarmingDetails;
  }

  /**
   * The two tables agree exactly when the directory tag is not empty: a
   * suspicious record's status badge then has the colour the suspicious
   * tokens table gives the first joined row of its transfer. The tokens
   * table reads the raw tag, so an empty tag is red there, while the record
   * falls back to "Caution" and is yellow.
   */
  lemma StatusColoursAgree(t: Transfer, susp: seq<Joined>, safe: seq<Joined>)
    requires FirstMatch(susp, t).Some?
    ensures var tag := susp[FirstMatch(susp, t).value].entry.tag;
      StatusColour(ProjectRow(t, susp, safe)) == TokenStatusColour(tag) <==> tag != ""
  {
  }
}
