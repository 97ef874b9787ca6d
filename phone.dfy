/** `formatPhoneNumber` and the loop that applies it to the text of every
    `tel:` link not marked `raw-phone`. */
module Phone {
  import opened Chars

  /** `phone.replace(/\D/g, '')`: the ASCII digits of `phone`, in order. */
  function Digits(phone: string): (d: string)
    ensures |d| <= |phone|
    ensures forall k :: 0 <= k < |d| ==> IsAsciiDigit(d[k])
  {
    Filter(phone, IsAsciiDigit)
  }

  /** `s` with every `-` deleted. */
  function DropDashes(s: string): string {
    Filter(s, c => c != '-')
  }

  /** `formatPhoneNumber`: ten digits are shown as `DDDD-DDD-DDD`; any other
      input is returned as it was given. */
  function FormatPhoneNumber(phone: string): string {
    var cleaned := Digits(phone);
    if |cleaned| == 10 then cleaned[..4] + "-" + cleaned[4..7] + "-" + cleaned[7..]
    else phone
  }

  /** `Filter` distributes over the five pieces of a formatted number. */
  lemma FilterGroups(a: string, b: string, c: string, sep: string, keep: char -> bool)
    ensures Filter(a + sep + b + sep + c, keep)
         == Filter(a, keep) + Filter(sep, keep) + Filter(b, keep) + Filter(sep, keep) + Filter(c, keep)
  {
    FilterAppend(a + sep + b + sep, c, keep);
    FilterAppend(a + sep + b, sep, keep);
    FilterAppend(a + sep, b, keep);
    FilterAppend(a, sep, keep);
  }

  /** The shape of the result: with exactly ten digits it is twelve characters,
      dashes at indices 4 and 8 and the digits in order everywhere else, so
      deleting the dashes gives the digits back; otherwise it is the input. */
  lemma FormatPhoneNumberShape(phone: string)
    ensures var r, d := FormatPhoneNumber(phone), Digits(phone);
      && (|d| == 10 ==>
            && |r| == 12 && r[4] == '-' && r[8] == '-'
            && (forall k :: 0 <= k < 4 ==> r[k] == d[k])
            && (forall k :: 5 <= k < 8 ==> r[k] == d[k - 1])
            && (forall k :: 9 <= k < 12 ==> r[k] == d[k - 2])
            && DropDashes(r) == d)
      && (|d| != 10 ==> r == phone)
  {
    var d := Digits(phone);
    if |d| == 10 {
      var a, b, c, dash := d[..4], d[4..7], d[7..], "-";
      var notDash := (ch: char) => ch != '-';
      FilterGroups(a, b, c, dash, notDash);
      FilterDropsAll(dash, notDash);
      FilterKeepsAll(a, notDash);
      FilterKeepsAll(b, notDash);
      FilterKeepsAll(c, notDash);
      assert a + b + c == d;
    }
  }

  /** Formatting never adds, drops or reorders a digit. */
  lemma FormatKeepsDigits(phone: string)
    ensures Digits(FormatPhoneNumber(phone)) == Digits(phone)
  {
    var d := Digits(phone);
    if |d| == 10 {
      var a, b, c, dash := d[..4], d[4..7], d[7..], "-";
      FilterGroups(a, b, c, dash, IsAsciiDigit);
      FilterDropsAll(dash, IsAsciiDigit);
      FilterKeepsAll(a, IsAsciiDigit);
      FilterKeepsAll(b, IsAsciiDigit);
      FilterKeepsAll(c, IsAsciiDigit);
      assert Filter(a + dash + b + dash + c, IsAsciiDigit) == a + b + c;
      assert a + b + c == d;
    }
  }

  /** Formatting an already formatted number changes nothing more. */
  lemma FormatIdempotent(phone: string)
    ensures FormatPhoneNumber(FormatPhoneNumber(phone)) == FormatPhoneNumber(phone)
  {
    FormatKeepsDigits(phone);
  }

  /** A `tel:` anchor: its text and whether it carries the `raw-phone` class. */
  datatype PhoneLink = PhoneLink(text: string, raw: bool)

  /** Every link's text formatted, except on links marked `raw-phone`. */
  function FormattedLinks(links: seq<PhoneLink>): (r: seq<PhoneLink>)
    ensures |r| == |links|
  {
    seq(|links|, i requires 0 <= i < |links| =>
      if links[i].raw then links[i] else links[i].(text := FormatPhoneNumber(links[i].text)))
  }

  /** Formatting the links a second time, as a second page-load pass would, changes nothing. */
  lemma FormattedLinksIdempotent(links: seq<PhoneLink>)
    ensures FormattedLinks(FormattedLinks(links)) == FormattedLinks(links)
  {
    var once := FormattedLinks(links);
    forall i | 0 <= i < |links| ensures FormattedLinks(once)[i] == once[i] {
      FormatIdempotent(links[i].text);
    }
  }

  /** The `forEach` over the `tel:` anchors, rewriting each text in place. */
  method FormatPhoneLinks(links: array<PhoneLink>)
    modifies links
    ensures links[..] == FormattedLinks(old(links[..]))
  {
    for i := 0 to links.Length
      invariant forall k :: 0 <= k < i ==> links[k] == FormattedLinks(old(links[..]))[k]
      invariant forall k :: i <= k < links.Length ==> links[k] == old(links[k])
    {
      if !links[i].raw {
        links[i] := links[i].(text := FormatPhoneNumber(links[i].text));
      }
    }
  }
}
