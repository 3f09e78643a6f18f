/**
 Lead sources: the label a lead is shown under, and the database filter that selects the leads of
 one label. The filter is a query, given here as its syntax together with what it matches.
 */
module LeadSource {
  import opened Text

  /** The stored field; a document may lack it or hold null. */
  datatype Field = Missing | Null | Text(text: string)

  datatype Lead = Lead(source: Field, channel: Option<string>)

  const WEBSITE_BOOKING := "Website Booking"
  const WEBSITE_CHAT := "Website Chat"
  const WEBSITE_INQUIRY := "Website Inquiry"
  const THIRD_PARTY_LEAD := "Third-Party Lead"
  const INBOUND_SMS := "Inbound SMS"
  const INBOUND_CALL := "Inbound Call"
  const EMAIL_INQUIRY := "Email Inquiry"
  const MANUAL_ENTRY := "Manual Entry"
  const DEMO := "Demo"
  const OTHER := "Other"

  const LEAD_SOURCE_VALUES: seq<string> := [
    WEBSITE_BOOKING, WEBSITE_CHAT, WEBSITE_INQUIRY, THIRD_PARTY_LEAD, INBOUND_SMS, INBOUND_CALL,
    EMAIL_INQUIRY, MANUAL_ENTRY, DEMO]

  const LABELS: seq<string> := LEAD_SOURCE_VALUES + [OTHER]

  // ----- The normalizer

  function LowerChar(c: char): char {
    if 'A' <= c <= 'Z' then (c as int + 32) as char else c
  }

  /** `toLowerCase`, on ASCII text. */
  function Lower(s: string): string {
    seq(|s|, i requires 0 <= i < |s| => LowerChar(s[i]))
  }

  predicate Ascii(s: string) {
    forall i | 0 <= i < |s| :: s[i] as int < 128
  }

  const LEGACY_EMAIL: seq<string> := ["email", "gmail sync"]
  const LEGACY_THIRD_PARTY: seq<string> := ["dealerscloud lead", "adf lead (dealerscloud)", "adf lead", "adf email"]

  /** The two lower-case names every JavaScript object inherits; the legacy table "has" them too. */
  const INHERITED: seq<string> := ["constructor", "__proto__"]

  /** A looked-up label: none for an inherited entry, whose `source` is undefined. */
  datatype Lookup = NotInTable | Found(shown: Option<string>)

  function LegacySourceMap(key: string): Lookup {
    if key in LEGACY_EMAIL then Found(Some(EMAIL_INQUIRY))
    else if key in LEGACY_THIRD_PARTY then Found(Some(THIRD_PARTY_LEAD))
    else if key in INHERITED then Found(None)
    else NotInTable
  }

  function Raw(source: Field): string {
    if source.Text? then Trim(source.text) else ""
  }

  /** The label a lead is shown under; none means undefined. */
  function NormalizeForDisplay(lead: Lead): Option<string> {
    var raw := Raw(lead.source);
    if raw in LEAD_SOURCE_VALUES then Some(raw)
    else
      var legacy := LegacySourceMap(Lower(raw));
      if legacy.Found? then legacy.shown
      else if lead.channel == Some("adf") && raw != "" then Some(THIRD_PARTY_LEAD)
      else if raw == "" then Some(EMAIL_INQUIRY)
      else Some(OTHER)
  }

  // ----- The filter

  datatype Condition =
    | SourceIs(value: Field)
    | SourceExists(yes: bool)
    | SourceNotIn(values: seq<Field>)
    | SourceLike(alternatives: seq<string>)       // /^(a|b|...)$/i
    | SourceNotLike(alternatives: seq<string>)
    | ChannelIs(channel: string)
    | ChannelIsNot(channel: string)
    | And(left: Condition, right: Condition)
    | Or(left: Condition, right: Condition)

  predicate SameIgnoringCase(s: string, t: string) {
    |s| == |t| && forall i | 0 <= i < |s| :: LowerChar(s[i]) == LowerChar(t[i])
  }

  predicate Like(f: Field, alternatives: seq<string>) {
    f.Text? && exists k | 0 <= k < |alternatives| :: SameIgnoringCase(f.text, alternatives[k])
  }

  /** Equality in a query: null also matches a missing field. */
  predicate Equals(f: Field, value: Field) {
    f == value || (value.Null? && f.Missing?)
  }

  predicate Matches(c: Condition, lead: Lead) {
    match c
    case SourceIs(value) => Equals(lead.source, value)
    case SourceExists(yes) => !lead.source.Missing? <==> yes
    case SourceNotIn(values) => forall k | 0 <= k < |values| :: !Equals(lead.source, values[k])
    case SourceLike(alternatives) => Like(lead.source, alternatives)
    case SourceNotLike(alternatives) => !Like(lead.source, alternatives)
    case ChannelIs(channel) => lead.channel == Some(channel)
    case ChannelIsNot(channel) => lead.channel != Some(channel)
    case And(left, right) => Matches(left, lead) && Matches(right, lead)
    case Or(left, right) => Matches(left, lead) || Matches(right, lead)
  }

  function Texts(values: seq<string>): seq<Field> {
    seq(|values|, i requires 0 <= i < |values| => Text(values[i]))
  }

  /** `$exists: true`, not empty, not null, none of the known values. */
  function SomethingElse(): Condition {
    And(SourceExists(true), SourceNotIn([Text(""), Null] + Texts(LEAD_SOURCE_VALUES)))
  }

  function BuildFilterCondition(source: string): Option<Condition> {
    var requested := Trim(source);
    if requested == "" || requested == "All" then None
    else if requested == EMAIL_INQUIRY then
      Some(Or(SourceIs(Text(EMAIL_INQUIRY)), Or(SourceLike(LEGACY_EMAIL),
              Or(SourceExists(false), Or(SourceIs(Null), SourceIs(Text("")))))))
    else if requested == THIRD_PARTY_LEAD then
      Some(Or(SourceIs(Text(THIRD_PARTY_LEAD)), Or(SourceLike(LEGACY_THIRD_PARTY),
              And(ChannelIs("adf"), And(SomethingElse(), SourceNotLike(LEGACY_EMAIL))))))
    else if requested == OTHER then
      Some(And(And(SomethingElse(), SourceNotLike(LEGACY_EMAIL + LEGACY_THIRD_PARTY)), ChannelIsNot("adf")))
    else if requested in LEAD_SOURCE_VALUES then Some(SourceIs(Text(requested)))
    else None
  }

  // ----- The filter selects what the normalizer shows

  /** The leads this is promised for: text sources are ASCII and already trimmed. */
  predicate Clean(lead: Lead) {
    lead.source.Text? ==> Ascii(lead.source.text) && Trimmed(lead.source.text)
  }

  predicate NamedLikeInherited(lead: Lead) {
    lead.source.Text? && Lower(lead.source.text) in INHERITED
  }

  predicate AllLowerCase(s: string) {
    forall i | 0 <= i < |s| :: LowerChar(s[i]) == s[i]
  }

  lemma LowerMeansIgnoringCase(s: string, key: string)
    requires AllLowerCase(key)
    ensures SameIgnoringCase(s, key) <==> Lower(s) == key
  {
    if SameIgnoringCase(s, key) {
      assert forall i | 0 <= i < |s| :: Lower(s)[i] == key[i];
    }
  }

  lemma LikeIsLookup(f: Field, keys: seq<string>)
    requires forall k | 0 <= k < |keys| :: AllLowerCase(keys[k])
    ensures Like(f, keys) <==> f.Text? && Lower(f.text) in keys
  {
    if f.Text? {
      forall k | 0 <= k < |keys| ensures SameIgnoringCase(f.text, keys[k]) <==> Lower(f.text) == keys[k] {
        LowerMeansIgnoringCase(f.text, keys[k]);
      }
    }
  }

  lemma TrimmedStays(s: string)
    requires Trimmed(s)
    ensures Trim(s) == s
  {
  }

  lemma LegacyKeysAreLower()
    ensures forall k | 0 <= k < |LEGACY_EMAIL| :: AllLowerCase(LEGACY_EMAIL[k])
    ensures forall k | 0 <= k < |LEGACY_THIRD_PARTY| :: AllLowerCase(LEGACY_THIRD_PARTY[k])
  {
  }

  lemma LabelsAreTrimmed(name: string)
    requires name in LABELS
    ensures Trim(name) == name && name != "" && name != "All"
  {
    TrimmedStays(name);
  }

  /** No known value is a legacy or inherited name in other letters. */
  lemma ValuesAreNotLegacy(name: string)
    requires name in LEAD_SOURCE_VALUES
    ensures Lower(name) !in LEGACY_EMAIL && Lower(name) !in LEGACY_THIRD_PARTY && Lower(name) !in INHERITED
  {
    assert |Lower(name)| == |name|;
    assert name == INBOUND_SMS ==> Lower(name)[0] == 'i';
  }

  /** How a lead's source is spelled: the six cases both sides distinguish. */
  datatype Spelling = Empty | Known(name: string) | OldEmail | OldThirdParty | Inherited | Unknown

  function SpellingOf(source: Field): Spelling {
    if !source.Text? || source.text == "" then Empty
    else if source.text in LEAD_SOURCE_VALUES then Known(source.text)
    else if Lower(source.text) in LEGACY_EMAIL then OldEmail
    else if Lower(source.text) in LEGACY_THIRD_PARTY then OldThirdParty
    else if Lower(source.text) in INHERITED then Inherited
    else Unknown
  }

  /** The label by spelling and channel. */
  function LabelOf(spelling: Spelling, adf: bool): Option<string> {
    match spelling
    case Empty => Some(EMAIL_INQUIRY)
    case Known(name) => Some(name)
    case OldEmail => Some(EMAIL_INQUIRY)
    case OldThirdParty => Some(THIRD_PARTY_LEAD)
    case Inherited => None
    case Unknown => Some(if adf then THIRD_PARTY_LEAD else OTHER)
  }

  lemma NormalizerBySpelling(lead: Lead)
    requires Clean(lead)
    ensures NormalizeForDisplay(lead) == LabelOf(SpellingOf(lead.source), lead.channel == Some("adf"))
  {
    if lead.source.Text? {
      TrimmedStays(lead.source.text);
    }
    assert Lower("") == "";
  }

  lemma NotInTexts(f: Field, texts: seq<string>)
    ensures var values := [Text(""), Null] + Texts(texts);
      (forall k | 0 <= k < |values| :: !Equals(f, values[k])) <==> f.Text? && f.text != "" && f.text !in texts
  {
    var values := [Text(""), Null] + Texts(texts);
    assert values[0] == Text("") && values[1] == Null;
    forall i | 0 <= i < |texts| ensures values[i + 2] == Text(texts[i]) {
    }
    if f.Text? && f.text in texts {
      var i :| 0 <= i < |texts| && texts[i] == f.text;
      assert Equals(f, values[i + 2]);
    }
    if f.Text? && f.text != "" && f.text !in texts {
      forall k | 0 <= k < |values| ensures !Equals(f, values[k]) {
        assert k >= 2 ==> values[k] == Text(texts[k - 2]);
      }
    }
  }

  lemma SomethingElseBySpelling(lead: Lead)
    ensures Matches(SomethingElse(), lead) <==> !SpellingOf(lead.source).Empty? && !SpellingOf(lead.source).Known?
  {
    hide Texts, Lower;
    NotInTexts(lead.source, LEAD_SOURCE_VALUES);
  }

  lemma KeysDiffer()
    ensures forall i, j | 0 <= i < |LEGACY_EMAIL| && 0 <= j < |LEGACY_THIRD_PARTY| ::
      LEGACY_EMAIL[i] != LEGACY_THIRD_PARTY[j]
  {
  }

  lemma LikeBySpelling(f: Field)
    ensures Like(f, LEGACY_EMAIL) <==> SpellingOf(f).OldEmail?
    ensures Like(f, LEGACY_THIRD_PARTY) <==> SpellingOf(f).OldThirdParty?
    ensures Like(f, LEGACY_EMAIL + LEGACY_THIRD_PARTY) <==> SpellingOf(f).OldEmail? || SpellingOf(f).OldThirdParty?
  {
    LegacyKeysAreLower();
    LikeIsLookup(f, LEGACY_EMAIL);
    LikeIsLookup(f, LEGACY_THIRD_PARTY);
    LikeIsLookup(f, LEGACY_EMAIL + LEGACY_THIRD_PARTY);
    if f.Text? && f.text in LEAD_SOURCE_VALUES {
      ValuesAreNotLegacy(f.text);
    }
    KeysDiffer();
    if f.Text? {
      assert f.text == "" ==> |Lower(f.text)| == 0;
    }
  }

  /** The filter of a label, by spelling and channel. An inherited name counts as unknown here. */
  predicate Selected(name: string, spelling: Spelling, adf: bool) {
    match spelling
    case Inherited => name == if adf then THIRD_PARTY_LEAD else OTHER
    case _ => Some(name) == LabelOf(spelling, adf)
  }

  lemma EmailFilter(lead: Lead)
    ensures BuildFilterCondition(EMAIL_INQUIRY).Some?
    ensures Matches(BuildFilterCondition(EMAIL_INQUIRY).value, lead)
            <==> Selected(EMAIL_INQUIRY, SpellingOf(lead.source), lead.channel == Some("adf"))
  {
    LabelsAreTrimmed(EMAIL_INQUIRY);
    LikeBySpelling(lead.source);
    hide Trim, Like, Lower;
    var empty := Or(SourceExists(false), Or(SourceIs(Null), SourceIs(Text(""))));
    assert Matches(empty, lead) <==> !lead.source.Text? || lead.source.text == "" by {
      assert Matches(empty.right, lead) <==> Equals(lead.source, Null) || lead.source == Text("");
    }
    var legacy := Or(SourceLike(LEGACY_EMAIL), empty);
    assert Matches(legacy, lead) <==> Like(lead.source, LEGACY_EMAIL) || Matches(empty, lead);
    assert BuildFilterCondition(EMAIL_INQUIRY) == Some(Or(SourceIs(Text(EMAIL_INQUIRY)), legacy));
  }

  lemma ThirdPartyFilter(lead: Lead)
    ensures BuildFilterCondition(THIRD_PARTY_LEAD).Some?
    ensures Matches(BuildFilterCondition(THIRD_PARTY_LEAD).value, lead)
            <==> Selected(THIRD_PARTY_LEAD, SpellingOf(lead.source), lead.channel == Some("adf"))
  {
    LabelsAreTrimmed(THIRD_PARTY_LEAD);
    SomethingElseBySpelling(lead);
    LikeBySpelling(lead.source);
    hide Trim, Like, SomethingElse, Lower;
    var unmapped := And(SomethingElse(), SourceNotLike(LEGACY_EMAIL));
    assert Matches(unmapped, lead) <==> Matches(SomethingElse(), lead) && !Like(lead.source, LEGACY_EMAIL);
    var adf := And(ChannelIs("adf"), unmapped);
    assert Matches(adf, lead) <==> lead.channel == Some("adf") && Matches(unmapped, lead);
    var legacy := Or(SourceLike(LEGACY_THIRD_PARTY), adf);
    assert Matches(legacy, lead) <==> Like(lead.source, LEGACY_THIRD_PARTY) || Matches(adf, lead);
    assert BuildFilterCondition(THIRD_PARTY_LEAD) == Some(Or(SourceIs(Text(THIRD_PARTY_LEAD)), legacy));
  }

  lemma OtherFilter(lead: Lead)
    ensures BuildFilterCondition(OTHER).Some?
    ensures Matches(BuildFilterCondition(OTHER).value, lead)
            <==> Selected(OTHER, SpellingOf(lead.source), lead.channel == Some("adf"))
  {
    LabelsAreTrimmed(OTHER);
    SomethingElseBySpelling(lead);
    LikeBySpelling(lead.source);
    hide Trim, Like, SomethingElse, Lower;
    var unmapped := And(SomethingElse(), SourceNotLike(LEGACY_EMAIL + LEGACY_THIRD_PARTY));
    assert Matches(unmapped, lead)
      <==> Matches(SomethingElse(), lead) && !Like(lead.source, LEGACY_EMAIL + LEGACY_THIRD_PARTY);
    assert BuildFilterCondition(OTHER) == Some(And(unmapped, ChannelIsNot("adf")));
    assert OTHER !in LEAD_SOURCE_VALUES;
  }

  lemma FilterBySpelling(name: string, lead: Lead)
    requires name in LABELS
    ensures BuildFilterCondition(name).Some?
    ensures Matches(BuildFilterCondition(name).value, lead)
            <==> Selected(name, SpellingOf(lead.source), lead.channel == Some("adf"))
  {
    if name == EMAIL_INQUIRY {
      EmailFilter(lead);
    } else if name == THIRD_PARTY_LEAD {
      ThirdPartyFilter(lead);
    } else if name == OTHER {
      OtherFilter(lead);
    } else {
      LabelsAreTrimmed(name);
      hide Trim, Lower;
    }
  }

  lemma InheritedSpelling(lead: Lead)
    ensures SpellingOf(lead.source).Inherited? <==> NamedLikeInherited(lead)
  {
    if lead.source.Text? {
      if lead.source.text in LEAD_SOURCE_VALUES {
        ValuesAreNotLegacy(lead.source.text);
      }
      assert |Lower(lead.source.text)| == |lead.source.text|;
    }
  }

  /**
   For a clean lead the filters agree with the normalizer, label by label, exactly when its source
   is not one of the two inherited names.
   */
  lemma FilterAgreesWithLabelExactlyWhen(lead: Lead)
    requires Clean(lead)
    ensures (forall name | name in LABELS ::
              BuildFilterCondition(name).Some?
              && (Matches(BuildFilterCondition(name).value, lead) <==> NormalizeForDisplay(lead) == Some(name)))
            <==> !NamedLikeInherited(lead)
  {
    hide Lower, Trim, BuildFilterCondition, Matches, NormalizeForDisplay;
    NormalizerBySpelling(lead);
    InheritedSpelling(lead);
    forall name | name in LABELS
      ensures BuildFilterCondition(name).Some?
        && (Matches(BuildFilterCondition(name).value, lead)
            <==> Selected(name, SpellingOf(lead.source), lead.channel == Some("adf")))
    {
      FilterBySpelling(name, lead);
    }
    assert OTHER in LABELS && THIRD_PARTY_LEAD in LABELS;
  }

  /** The filter built for the label selects the lead. */
  predicate Passes(name: string, lead: Lead) {
    BuildFilterCondition(name).Some? && Matches(BuildFilterCondition(name).value, lead)
  }

  /** Whatever the source, exactly one label's filter selects the lead. */
  lemma ExactlyOneFilterMatches(lead: Lead) returns (name: string)
    ensures name in LABELS && Passes(name, lead)
    ensures forall other | other in LABELS && Passes(other, lead) :: other == name
  {
    var spelling, adf := SpellingOf(lead.source), lead.channel == Some("adf");
    name := match spelling
      case Inherited => if adf then THIRD_PARTY_LEAD else OTHER
      case Known(known) => known
      case Empty => EMAIL_INQUIRY
      case OldEmail => EMAIL_INQUIRY
      case OldThirdParty => THIRD_PARTY_LEAD
      case Unknown => if adf then THIRD_PARTY_LEAD else OTHER;
    hide Lower, BuildFilterCondition, Matches;
    assert name in LABELS;
    FilterBySpelling(name, lead);
    forall other | other in LABELS && Passes(other, lead) ensures other == name {
      FilterBySpelling(other, lead);
    }
  }
}
