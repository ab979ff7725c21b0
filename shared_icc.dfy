/**
 * The ICC profile reader the WebP parser shares: the same header fields and
 * `cprt` scan as the JPEG reader's (module Icc), returned as a `*ICCProfile`, and
 * the form PrintICC writes for a profile — a heading and seven labelled
 * fields, or nothing at all for a nil profile.
 */
module SharedIcc {
  import opened Bytes
  import Icc

  /** ParseICC: the profile the JPEG reader reads, as a `*ICCProfile` that is never nil. */
  method ParseICC(raw: seq<byte>) returns (result: Option<Icc.Profile>)
    requires Icc.Parses(raw)
    ensures result.Some? && result.value == Icc.ProfileOf(raw)
  {
    var profile := Icc.ParseICC(raw);
    result := Some(profile);
  }

  // ---- printing ----

  /** One line PrintICC writes: the underlined heading, or a field's label and its value. */
  datatype Line = Heading(title: string) | Form(name: string, value: seq<byte>)

  const Title := "ICC Profile"

  /** The labels of the seven fields, in the order they are printed. */
  const Labels: seq<string> := ["CMM Type", "Profile Class", "Primary Platform", "Dev Manufacturer", "Dev Model", "Profile Creator", "Copyright"]

  /** The seven field values, in the order of `Labels`. */
  function Fields(p: Icc.Profile): (vs: seq<seq<byte>>)
    ensures |vs| == |Labels|
  {
    [p.cmmType, p.profileClass, p.primaryPlatform, p.deviceManufacturer, p.deviceModel, p.profileCreator, p.copyright]
  }

  /** PrintICC: nothing for a nil profile; otherwise the heading, then one form line per field. */
  function PrintICC(profile: Option<Icc.Profile>): seq<Line>
  {
    match profile
    case None => []
    case Some(p) =>
      var vs := Fields(p);
      [Heading(Title)] + seq(|Labels|, k requires 0 <= k < |Labels| => Form(Labels[k], vs[k]))
  }

  /** The profile a printed form shows, read back from its lines; None when the lines are not such a form. */
  function ReadForm(lines: seq<Line>): Option<Icc.Profile>
  {
    if |lines| != 8 || lines[0] != Heading(Title) then None
    else if !(forall k :: 1 <= k < 8 ==> lines[k].Form? && lines[k].name == Labels[k - 1]) then None
    else Some(Icc.Profile(lines[1].value, lines[2].value, lines[3].value, lines[4].value, lines[5].value, lines[6].value, lines[7].value))
  }

  /**
   * A nil profile prints nothing and a profile prints its heading and seven
   * fields, from which it can be read back whole: the form shows every
   * field, each under its own label, and no two profiles print alike.
   */
  lemma PrintReadsBack(profile: Option<Icc.Profile>)
    ensures profile.None? <==> PrintICC(profile) == []
    ensures profile.Some? ==> |PrintICC(profile)| == 8 && ReadForm(PrintICC(profile)) == profile
  {
    if profile.Some? {
      var lines := PrintICC(profile);
      assert forall k :: 1 <= k < 8 ==> lines[k] == Form(Labels[k - 1], Fields(profile.value)[k - 1]);
    }
  }

  /** What a parsed profile prints: the header fields read from `raw`, then its copyright, always eight lines. */
  lemma ParsedPrints(raw: seq<byte>)
    requires Icc.Parses(raw)
    ensures var lines := PrintICC(Some(Icc.ProfileOf(raw)));
      |lines| == 8 && lines[1] == Form("CMM Type", raw[4..8]) && lines[2] == Form("Profile Class", raw[12..16])
      && lines[6] == Form("Profile Creator", raw[80..83]) && lines[7] == Form("Copyright", Icc.ProfileOf(raw).copyright)
  {
    var p := Icc.ProfileOf(raw);
    assert p.cmmType == raw[4..8] && p.profileClass == raw[12..16] && p.profileCreator == raw[80..83];
  }
}
