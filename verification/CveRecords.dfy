/** CVE identifiers and the records handed from the databases to the reports. */
module CveRecords {
  import opened Text

  datatype CveRecord = CveRecord(cve: string, cvss: real, summary: string, epss: real, kev: bool)

  /** `cve.strip().upper()`. */
  function NormalCve(cve: string): string {
    Upper(Strip(cve))
  }

  /** An identifier written with blanks around it is normalised to its upper-case text. */
  lemma NormalCvePadded(before: string, cve: string, after: string)
    requires cve != [] && Trimmed(cve)
    requires forall c :: c in before + after ==> IsSpace(c)
    ensures NormalCve(before + cve + after) == Upper(cve)
  {
    StripPadded(before, cve, after);
  }
}
