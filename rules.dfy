/** The constant catalog of section rules. */
module Rules {

  /** A rule: its patterns in the order they are tried, the section label (`name`) it
      identifies and that label's priority (higher is more important). */
  datatype Rule = Rule(patterns: seq<string>, name: string, priority: int)

  /** `section_rules`, in catalog order. */
  const SectionRules: seq<Rule> := [
    Rule(["MORTGAGE", "DEED OF TRUST", "SECURITY INSTRUMENT"], "Mortgage", 10),
    Rule(["PROMISSORY NOTE", "NOTE"], "Promissory Note", 10),
    Rule(["LENDERS CLOSING INSTRUCTIONS", "CLOSING INSTRUCTIONS GUARANTY", "LENDER'S CLOSING INSTRUCTIONS"],
         "Lenders Closing Instructions Guaranty", 9),
    Rule(["SETTLEMENT STATEMENT", "HUD-1", "CLOSING DISCLOSURE"], "Settlement Statement", 9),
    Rule(["STATEMENT OF ANTI COERCION", "ANTI COERCION", "ANTI-COERCION FLORIDA"],
         "Statement of Anti Coercion Florida", 8),
    Rule(["CORRECTION AGREEMENT", "LIMITED POWER OF ATTORNEY", "POWER OF ATTORNEY"],
         "Correction Agreement and Limited Power of Attorney", 8),
    Rule(["ALL PURPOSE ACKNOWLEDGMENT", "ACKNOWLEDGMENT", "NOTARY ACKNOWLEDGMENT"], "All Purpose Acknowledgment", 8),
    Rule(["FLOOD HAZARD DETERMINATION", "FLOOD DETERMINATION", "FEMA FLOOD"], "Flood Hazard Determination", 7),
    Rule(["INSURANCE POLICY", "HOMEOWNER'S INSURANCE", "HAZARD INSURANCE"], "Insurance Policy", 7),
    Rule(["AUTOMATIC PAYMENTS AUTHORIZATION", "AUTOMATIC PAYMENT", "ACH AUTHORIZATION"],
         "Automatic Payments Authorization", 7),
    Rule(["TAX RECORD INFORMATION", "TAX RECORDS", "PROPERTY TAX"], "Tax Record Information", 7),
    Rule(["TITLE POLICY", "TITLE INSURANCE", "OWNER'S POLICY"], "Title Policy", 6),
    Rule(["DEED", "WARRANTY DEED", "QUITCLAIM DEED"], "Deed", 6),
    Rule(["UCC FILING", "UCC-1", "FINANCING STATEMENT"], "UCC Filing", 5),
    Rule(["SIGNATURE PAGE", "SIGNATURES", "BORROWER SIGNATURE"], "Signature Page", 5),
    Rule(["AFFIDAVIT", "SWORN STATEMENT"], "Affidavit", 5)
  ]

  /** No two rules of the table share a label. */
  predicate NamesDistinct(rules: seq<Rule>) {
    forall i, j :: 0 <= i < j < |rules| ==> rules[i].name != rules[j].name
  }

  /** No two rules of the catalog share a label, so the label is a key. */
  lemma CatalogLabelsDistinct()
    ensures |SectionRules| == 16
    ensures NamesDistinct(SectionRules)
  {
    forall i, j | 0 <= i < j < |SectionRules|
      ensures SectionRules[i].name != SectionRules[j].name
    {
      var a, b := SectionRules[i].name, SectionRules[j].name;
      assert |a| != |b| || a[0] != b[0];
    }
  }
}
