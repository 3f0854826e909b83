/** The generalized time of a search filter (mo_ldap_import_export/ldap_event_generator.py:282-297;
    section 3.3.13 of RFC 4517). */
module Timestamps {
  import opened Wrappers
  import opened Decimal

  /** A moment on the clock of a time zone that is a whole number of minutes ahead of or behind UTC. */
  datatype Datetime = Datetime(year: nat, month: nat, day: nat, hour: nat, minute: nat, second: nat, microsecond: nat,
                               behind: bool, zoneHours: nat, zoneMinutes: nat)

  predicate ValidDatetime(d: Datetime) {
    && 1 <= d.year <= 9999 && 1 <= d.month <= 12 && 1 <= d.day <= 31
    && d.hour < 24 && d.minute < 60 && d.second < 60 && d.microsecond < 1_000_000
    && d.zoneHours < 24 && d.zoneMinutes < 60
  }

  /** Right-justified in a field of zeros. */
  function RJust(text: string, width: nat): string
    decreases width - |text|
  {
    if |text| >= width then text else RJust("0" + text, width)
  }

  function Two(n: nat): string {
    RJust(Dec(n), 2)
  }

  function DatetimeToLdapTimestamp(d: Datetime): string {
    RJust(Dec(d.year), 4) + Two(d.month) + Two(d.day) + Two(d.hour) + Two(d.minute) + Two(d.second)
    + ".0" + (if d.behind then "-" else "+") + Two(d.zoneHours) + Two(d.zoneMinutes)
  }

  predicate AreDigits(text: string) {
    forall i :: 0 <= i < |text| ==> '0' <= text[i] <= '9'
  }

  /** Reads a generalized time of this form; the fraction is always zero. */
  function Parse(text: string): Option<Datetime> {
    if |text| == 21 && AreDigits(text[..14]) && text[14..16] == ".0" && text[16] in "+-" && AreDigits(text[17..]) then
      Some(Datetime(Number(text[..4]), Number(text[4..6]), Number(text[6..8]),
                    Number(text[8..10]), Number(text[10..12]), Number(text[12..14]), 0,
                    text[16] == '-', Number(text[17..19]), Number(text[19..])))
    else None
  }

  lemma {:induction false} NumberOfZeros(digits: string)
    requires AreDigits(digits)
    ensures AreDigits("0" + digits) && Number("0" + digits) == Number(digits)
  {
    if digits != "" {
      var init := digits[..|digits| - 1];
      NumberOfZeros(init);
      assert ("0" + digits)[..|digits|] == "0" + init;
    } else {
      assert ("0" + digits)[..0] == "";
    }
  }

  lemma {:induction false} RJustIs(digits: string, width: nat)
    requires AreDigits(digits) && |digits| <= width
    ensures |RJust(digits, width)| == width && AreDigits(RJust(digits, width))
      && Number(RJust(digits, width)) == Number(digits)
    decreases width - |digits|
  {
    if |digits| < width {
      NumberOfZeros(digits);
      RJustIs("0" + digits, width);
    }
  }

  lemma FieldIs(n: nat, width: nat)
    requires (width == 2 && n < 100) || (width == 4 && n < 10000)
    ensures var field := RJust(Dec(n), width); |field| == width && AreDigits(field) && Number(field) == n
  {
    forall i | 0 <= i < |Dec(n)| ensures '0' <= Dec(n)[i] <= '9' {
      assert Dec(n)[i] in Dec(n);
    }
    NumberOfDec(n);
    RJustIs(Dec(n), width);
  }

  /** Nothing of a moment is lost but the fraction of a second. */
  lemma ParseTimestamp(d: Datetime)
    requires ValidDatetime(d)
    ensures Parse(DatetimeToLdapTimestamp(d)) == Some(d.(microsecond := 0))
  {
    hide RJust, Number, Dec;
    FieldIs(d.year, 4);
    FieldIs(d.month, 2);
    FieldIs(d.day, 2);
    FieldIs(d.hour, 2);
    FieldIs(d.minute, 2);
    FieldIs(d.second, 2);
    FieldIs(d.zoneHours, 2);
    FieldIs(d.zoneMinutes, 2);
    var text := DatetimeToLdapTimestamp(d);
    assert text[..4] == RJust(Dec(d.year), 4);
    assert text[4..6] == Two(d.month) && text[6..8] == Two(d.day);
    assert text[8..10] == Two(d.hour) && text[10..12] == Two(d.minute) && text[12..14] == Two(d.second);
    assert text[14..16] == ".0" && text[16] == if d.behind then '-' else '+';
    assert text[17..19] == Two(d.zoneHours) && text[19..] == Two(d.zoneMinutes);
    assert text[..14] == text[..4] + text[4..6] + text[6..8] + text[8..10] + text[10..12] + text[12..14];
    assert text[17..] == text[17..19] + text[19..];
  }
}
