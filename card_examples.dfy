/**
 Worked examples of the rules of the business-card classifier on concrete
 lines: which bucket each goes to and what is stored for it.
 */
module CardExamples {
  import opened Strings
  import opened Classifier

  /** A line starting with '+' is a contact, never a company name or an address. */
  lemma PlusLineIsContact()
    ensures Classify("+91-9876543210") == Placement(Contact, "+91-9876543210")
  {
    assert StartsWith("+91-9876543210", "+");
  }

  lemma AtAndDotComIsEmail()
    ensures Classify("John@Example.com") == Placement(Email, "John@Example.com")
  {
    var line := "John@Example.com";
    assert line[..1][0] == 'J' && "+"[0] == '+';
    assert '-' !in line;
    assert line[4] == '@';
    assert line[12..16] == ".com";
    OccursContains(line, ".com", 12);
  }

  /** A bare six-digit postal code is a pincode. */
  lemma SixDigitsIsPincode()
    ensures Classify("600001") == Placement(Pincode, "600001")
  {
    DigitLineIsPincode("600001");
  }

  /** How the address example splits at its separators. */
  lemma AddressPieces()
    ensures "12" + [','] + " Main Street" + [';'] + " Chennai" == "12, Main Street; Chennai"
    ensures "12" + " Main Street" + " Chennai" == "12 Main Street Chennai"
  {
  }

  /** The address example's pieces hold no separator and nothing an earlier rule looks for. */
  lemma PlainPieces()
    ensures PlainText("12") && PlainText(" Main Street") && PlainText(" Chennai")
  {
    assert PlainText("12");
    assert PlainText(" Chennai");
  }

  /** Commas and semicolons are removed from an address and nothing else changes. */
  lemma AddressLosesSeparators()
    ensures Classify("12, Main Street; Chennai") == Placement(Address, "12 Main Street Chennai")
  {
    AddressPieces();
    PlainPieces();
    SeparatedAddress("12", ',', " Main Street", ';', " Chennai");
  }

  /**
   "WwW" is not one of the five spellings the website rule tests, so this line
   starts with a letter and is taken for a company name.
   */
  lemma MixedCaseWwwIsCompanyName()
    ensures Classify("WwW.AcmeCorp.com") == Placement(CompanyName, "WwW.AcmeCorp.com")
  {
    assert "WwW.AcmeCorp.com" == "WwW" + ".AcmeCorp.com";
    LeadingMixedCaseWww(".AcmeCorp.com");
  }
}
