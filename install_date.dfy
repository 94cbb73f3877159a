/**
 * Normalisation of a registry `InstallDate` value (`parse_install_date`).
 * A value whose stripped form starts with eight digits becomes `YYYY-MM-DD`;
 * anything after the eight digits is dropped, because the pattern is
 * anchored at the start only. `\d` is read as the ASCII digits.
 */
module InstallDate {
  import opened Wrappers
  import opened Text

  /** `re.match(r"^(\d{4})(\d{2})(\d{2})", t)` succeeds. */
  predicate HasDatePrefix(t: string) {
    |t| >= 8 && forall i :: 0 <= i < 8 ==> IsDigit(t[i])
  }

  /** `DDDD-DD-DD`. */
  predicate IsIsoDate(r: string) {
    |r| == 10 && r[4] == '-' && r[7] == '-'
    && forall i :: 0 <= i < 10 && i != 4 && i != 7 ==> IsDigit(r[i])
  }

  /**
   * An absent or empty value gives "". Otherwise the value is stripped; eight
   * leading digits are regrouped as a date, keeping their order, and any other
   * stripped value is returned as it is.
   */
  function ParseInstallDate(val: Option<string>): (r: string)
    ensures (val.None? || val.value == "") ==> r == ""
    ensures val.Some? && HasDatePrefix(Strip(val.value)) ==>
              IsIsoDate(r) && r[..4] + r[5..7] + r[8..] == Strip(val.value)[..8]
    ensures val.Some? && !HasDatePrefix(Strip(val.value)) ==> r == Strip(val.value)
    ensures Trimmed(r)
  {
    if val.None? || val.value == "" then ""
    else
      var t := Strip(val.value);
      StripSpec(val.value);
      if HasDatePrefix(t) then
        var r := t[..4] + "-" + t[4..6] + "-" + t[6..8];
        assert r[..4] + r[5..7] + r[8..] == t[..4] + t[4..6] + t[6..8] == t[..8];
        assert r[0] == t[0] && r[9] == t[7];
        r
      else t
  }

  /** A normalised date no longer starts with eight digits: the dash sits at index 4. */
  lemma IsoDateHasNoDatePrefix(r: string)
    requires IsIsoDate(r)
    ensures !HasDatePrefix(r)
  {
    assert !IsDigit(r[4]);
  }

  /** Feeding a result back in changes nothing. */
  lemma ParseInstallDateIdempotent(val: Option<string>)
    ensures ParseInstallDate(Some(ParseInstallDate(val))) == ParseInstallDate(val)
  {
    var r := ParseInstallDate(val);
    if r != "" {
      StripTrimmed(r);
      if val.Some? && HasDatePrefix(Strip(val.value)) {
        IsoDateHasNoDatePrefix(r);
      }
    }
  }

  /** The registry's usual `YYYYMMDD` form. */
  lemma ParseCompactDate()
    ensures ParseInstallDate(Some("20230405")) == "2023-04-05"
  {
    var t := "20230405";
    StripTrimmed(t);
    assert HasDatePrefix(t);
    assert t[..4] == "2023" && t[4..6] == "04" && t[6..8] == "05";
  }

  /** A value that does not start with eight digits passes through. */
  lemma ParseSlashedDate()
    ensures ParseInstallDate(Some("04/05/2023")) == "04/05/2023"
  {
    StripTrimmed("04/05/2023");
    assert !IsDigit("04/05/2023"[2]);
  }

  /** Only the first eight digits matter: whatever follows them is dropped. */
  lemma ParseIgnoresTail(v: string)
    requires HasDatePrefix(Strip(v))
    ensures ParseInstallDate(Some(v)) == ParseInstallDate(Some(Strip(v)[..8]))
  {
    var t := Strip(v);
    var d := t[..8];
    assert !IsSpace(d[0]) && !IsSpace(d[7]);
    StripTrimmed(d);
    assert HasDatePrefix(d);
    assert d[..4] == t[..4] && d[4..6] == t[4..6] && d[6..8] == t[6..8];
    calc {
      ParseInstallDate(Some(d));
      d[..4] + "-" + d[4..6] + "-" + d[6..8];
      t[..4] + "-" + t[4..6] + "-" + t[6..8];
      ParseInstallDate(Some(v));
    }
  }

  /** An absent value, and an empty one, give "". */
  lemma ParseMissingDate()
    ensures ParseInstallDate(None) == ""
    ensures ParseInstallDate(Some("")) == ""
  {
  }
}
