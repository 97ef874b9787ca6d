/** Concrete addresses and the verdict `validateEmail` gives on each. */
module EmailExamples {
  import opened Email

  lemma PlainAddress()
    ensures ValidateEmail("user@example.com")
  {
    SplitValid("user@example.com", "user", "example", "com");
  }

  lemma UpperCaseAddress()
    ensures ValidateEmail("USER@EXAMPLE.COM")
  {
    SplitValid("USER@EXAMPLE.COM", "USER", "EXAMPLE", "COM");
  }

  lemma DoubleAt()
    ensures !ValidateEmail("user@@example.com")
  {
    TwoAtsRefused("user@@example.com", 4, 5);
  }

  lemma NoDotInDomain()
    ensures !ValidateEmail("user@example")
  {
    NoDotRefused("user@example");
  }
}
