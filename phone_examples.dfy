/** Concrete inputs to `formatPhoneNumber`, among them the number its
    comment uses to show the `DDDD-DDD-DDD` layout. */
module PhoneExamples {
  import opened Chars
  import opened Phone

  lemma TenDigits()
    ensures FormatPhoneNumber("0788302499") == "0788-302-499"
  {
    var d := "0788302499";
    FilterKeepsAll(d, IsAsciiDigit);
    assert d[..4] == "0788" && d[4..7] == "302" && d[7..] == "499";
  }

  lemma Punctuated()
    ensures FormatPhoneNumber("(078) 830-2499") == "0788-302-499"
  {
    PunctuatedDigits();
    var d := "0788302499";
    assert d[..4] == "0788" && d[4..7] == "302" && d[7..] == "499";
  }

  /** The digits of `(078) 830-2499`, taken one prefix at a time. */
  lemma PunctuatedDigits()
    ensures Digits("(078) 830-2499") == "0788302499"
  {
    var s := "(078) 830-2499";
    PunctuatedPrefix();
    assert Kept(s, 8, IsAsciiDigit) == "07883";
    assert Kept(s, 9, IsAsciiDigit) == "078830";
    assert Kept(s, 10, IsAsciiDigit) == "078830";
    assert Kept(s, 11, IsAsciiDigit) == "0788302";
    assert Kept(s, 12, IsAsciiDigit) == "07883024";
    assert Kept(s, 13, IsAsciiDigit) == "078830249";
    assert Kept(s, 14, IsAsciiDigit) == "0788302499";
  }

  lemma PunctuatedPrefix()
    ensures Kept("(078) 830-2499", 7, IsAsciiDigit) == "0788"
  {
    var s := "(078) 830-2499";
    assert Kept(s, 1, IsAsciiDigit) == "";
    assert Kept(s, 2, IsAsciiDigit) == "0";
    assert Kept(s, 3, IsAsciiDigit) == "07";
    assert Kept(s, 4, IsAsciiDigit) == "078";
    assert Kept(s, 5, IsAsciiDigit) == "078";
    assert Kept(s, 6, IsAsciiDigit) == "078";
  }

  lemma TooShort()
    ensures FormatPhoneNumber("123") == "123"
  {
    FilterKeepsAll("123", IsAsciiDigit);
  }
}
