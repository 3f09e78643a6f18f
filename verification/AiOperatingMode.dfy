/**
 The operating mode of the AI on each channel: what an admin's request may change, and the change
 log that goes with it. A request reads the organization and decides, then writes, then logs: three
 database operations. The lemmas say what every interleaving keeps, and exactly when the log stays
 truthful.
 */
module AiOperatingMode {

  import opened Text

  datatype Channel = Sms | Email | Webchat | ShadowDrafts

  const AI_CHANNELS: seq<Channel> := [Sms, Email, Webchat]
  const AI_MODES: set<string> := {"off", "training", "testing", "live"}
  const LIVE_CONFIRMATION_PHRASE := "ENABLE LIVE"
  const MIN_LIVE_REASON_LENGTH := 5
  const MAX_REASON_LENGTH := 500

  predicate IsAiMode(s: string) {
    s in AI_MODES
  }

  function OnOff(on: bool): string {
    if on then "on" else "off"
  }

  /** `configured` is the stored object of modes, in which anything that is no mode reads as off. */
  datatype Metadata = Metadata(configured: Option<map<Channel, string>>, aiAgentEnabled: bool, shadowDrafts: bool) {

    predicate FromLegacy() {
      configured.None?
    }

    function Mode(c: Channel): string {
      match configured
      case None => if aiAgentEnabled then "live" else "off"
      case Some(modes) => if c in modes && IsAiMode(modes[c]) then modes[c] else "off"
    }

    function Source(): string {
      if FromLegacy() then "legacy" else "configured"
    }

    /** What the log is about: the mode of an AI channel, or the shadow draft switch. */
    function Setting(c: Channel): string {
      if c == ShadowDrafts then OnOff(shadowDrafts) else Mode(c)
    }
  }

  predicate AnyChannelLive(modes: map<Channel, string>) {
    exists c | c in AI_CHANNELS :: c in modes && modes[c] == "live"
  }

  datatype Row = Row(channel: Channel, fromMode: string, toMode: string, fromSource: string, reason: Option<string>)

  function Reason(text: string): (reason: string)
    ensures reason <= Trim(text) && (|reason| == 500 || reason == Trim(text)) && |reason| <= 500
  {
    var trimmed := Trim(text);
    if |trimmed| > MAX_REASON_LENGTH then trimmed[..MAX_REASON_LENGTH] else trimmed
  }

  function ReasonField(text: string): Option<string> {
    if Reason(text) == "" then None else Some(Reason(text))
  }

  /** The body of a request for modes; `modes` is None when it is not an object. */
  datatype ModesRequest =
    ModesRequest(admin: bool, modes: Option<map<Channel, string>>, confirmLive: string, reason: string)

  datatype Answer =
    NotAdmin | NothingChosen | InvalidMode(channel: Channel) | Unconfirmed | ReasonMissing | NoChanges | Updated

  // ----- What a request asks for

  predicate Asks(r: ModesRequest, c: Channel) {
    r.modes.Some? && c in r.modes.value
  }

  predicate Invalid(r: ModesRequest, c: Channel) {
    Asks(r, c) && !IsAiMode(r.modes.value[c])
  }

  function NextMode(seen: Metadata, r: ModesRequest, c: Channel): string {
    if Asks(r, c) then r.modes.value[c] else seen.Mode(c)
  }

  function Next(seen: Metadata, r: ModesRequest): map<Channel, string> {
    map[Sms := NextMode(seen, r, Sms), Email := NextMode(seen, r, Email), Webchat := NextMode(seen, r, Webchat)]
  }

  predicate Changes(seen: Metadata, r: ModesRequest, c: Channel) {
    seen.FromLegacy() || NextMode(seen, r, c) != seen.Mode(c)
  }

  predicate GoesLive(seen: Metadata, r: ModesRequest, c: Channel) {
    Changes(seen, r, c) && NextMode(seen, r, c) == "live"
  }

  predicate Confirms(r: ModesRequest) {
    Trim(r.confirmLive) == LIVE_CONFIRMATION_PHRASE
  }

  predicate GivesReason(r: ModesRequest) {
    |Reason(r.reason)| >= MIN_LIVE_REASON_LENGTH
  }

  predicate AsksSomething(r: ModesRequest) {
    Asks(r, Sms) || Asks(r, Email) || Asks(r, Webchat)
  }

  predicate ChangesSomething(seen: Metadata, r: ModesRequest) {
    Changes(seen, r, Sms) || Changes(seen, r, Email) || Changes(seen, r, Webchat)
  }

  predicate GoesLiveSomewhere(seen: Metadata, r: ModesRequest) {
    GoesLive(seen, r, Sms) || GoesLive(seen, r, Email) || GoesLive(seen, r, Webchat)
  }

  function Refusal(r: ModesRequest): Option<Answer> {
    if r.modes.None? then Some(NothingChosen)
    else if Invalid(r, Sms) then Some(InvalidMode(Sms))
    else if Invalid(r, Email) then Some(InvalidMode(Email))
    else if Invalid(r, Webchat) then Some(InvalidMode(Webchat))
    else if !AsksSomething(r) then Some(NothingChosen)
    else None
  }

  lemma RefusalIsNoUpdate(r: ModesRequest)
    ensures Refusal(r) != Some(Updated)
  {
  }

  function Decide(seen: Metadata, r: ModesRequest): Answer {
    if !r.admin then NotAdmin
    else if Refusal(r).Some? then Refusal(r).value
    else if !ChangesSomething(seen, r) then NoChanges
    else if !GoesLiveSomewhere(seen, r) then Updated
    else if !Confirms(r) then Unconfirmed
    else if !GivesReason(r) then ReasonMissing
    else Updated
  }

  function RowFor(seen: Metadata, r: ModesRequest, c: Channel): Row {
    Row(c, seen.Mode(c), NextMode(seen, r, c), seen.Source(), ReasonField(r.reason))
  }

  /** The rows for the first `n` channels. */
  function Rows(seen: Metadata, r: ModesRequest, n: nat): seq<Row>
    requires n <= 3
  {
    if n == 0 then []
    else
      var c := AI_CHANNELS[n - 1];
      Rows(seen, r, n - 1) + (if Changes(seen, r, c) then [RowFor(seen, r, c)] else [])
  }

  datatype Org = Org(metadata: Metadata, log: seq<Row>)

  datatype ShadowRequest = ShadowRequest(admin: bool, enabled: Option<bool>, reason: string)

  datatype ShadowAnswer = ShadowNotAdmin | NotBoolean | NoShadowChanges | ShadowUpdated

  datatype Request = Modes(modes: ModesRequest) | Shadow(shadow: ShadowRequest)

  /** Whether a request that has `seen` this goes on to write. */
  predicate Writes(seen: Metadata, r: Request) {
    match r
    case Modes(m) => Decide(seen, m) == Updated
    case Shadow(w) => w.admin && w.enabled.Some? && w.enabled.value != seen.shadowDrafts
  }

  /** The second operation: modes and switch are set together, from what was seen. */
  function Written(stored: Metadata, seen: Metadata, r: Request): Metadata {
    if !Writes(seen, r) then stored
    else
      match r
      case Modes(m) =>
        var next := Next(seen, m);
        stored.(configured := Some(next), aiAgentEnabled := AnyChannelLive(next))
      case Shadow(w) => stored.(shadowDrafts := w.enabled.value)
  }

  /** The third operation: the rows it logs. */
  function RowsFor(seen: Metadata, r: Request): seq<Row> {
    if !Writes(seen, r) then []
    else
      match r
      case Modes(m) => Rows(seen, m, 3)
      case Shadow(w) =>
        [Row(ShadowDrafts, OnOff(seen.shadowDrafts), OnOff(w.enabled.value), "configured", ReasonField(w.reason))]
  }

  /** A request that nothing overlaps. */
  function Serve(org: Org, r: Request): Org {
    Org(Written(org.metadata, org.metadata, r), org.log + RowsFor(org.metadata, r))
  }

  // ----- The handlers

  lemma FirstInvalid(r: ModesRequest, i: nat)
    requires r.modes.Some? && i < 3 && Invalid(r, AI_CHANNELS[i])
    requires forall j | 0 <= j < i :: !Invalid(r, AI_CHANNELS[j])
    ensures Refusal(r) == Some(InvalidMode(AI_CHANNELS[i]))
  {
    hide Invalid;
    assert i > 0 ==> !Invalid(r, AI_CHANNELS[0]);
    assert i > 1 ==> !Invalid(r, AI_CHANNELS[1]);
  }

  lemma AllValid(r: ModesRequest)
    requires forall j | 0 <= j < 3 :: !Invalid(r, AI_CHANNELS[j])
    ensures !Invalid(r, Sms) && !Invalid(r, Email) && !Invalid(r, Webchat)
    ensures (exists j | 0 <= j < 3 :: Asks(r, AI_CHANNELS[j])) <==> AsksSomething(r)
  {
    hide Invalid, Asks;
    assert !Invalid(r, AI_CHANNELS[0]) && !Invalid(r, AI_CHANNELS[1]) && !Invalid(r, AI_CHANNELS[2]);
    assert Asks(r, AI_CHANNELS[0]) || Asks(r, AI_CHANNELS[1]) || Asks(r, AI_CHANNELS[2]) <==> AsksSomething(r);
  }

  /** The loop over the channels that validates the request, if it comes from an admin. */
  method CheckModes(r: ModesRequest) returns (refusal: Option<Answer>)
    requires r.admin
    ensures Refusal(r) == refusal
  {
    hide IsAiMode;
    if r.modes.None? {
      return Some(NothingChosen);
    }
    var asked := false;
    for i := 0 to 3
      invariant asked <==> exists j | 0 <= j < i :: Asks(r, AI_CHANNELS[j])
      invariant forall j | 0 <= j < i :: !Invalid(r, AI_CHANNELS[j])
    {
      if AI_CHANNELS[i] in r.modes.value {
        if !IsAiMode(r.modes.value[AI_CHANNELS[i]]) {
          FirstInvalid(r, i);
          return Some(InvalidMode(AI_CHANNELS[i]));
        }
        asked := true;
      }
    }
    AllValid(r);
    refusal := if asked then None else Some(NothingChosen);
  }

  lemma Over3(seen: Metadata, r: ModesRequest)
    ensures (exists j | 0 <= j < 3 :: Changes(seen, r, AI_CHANNELS[j])) <==> ChangesSomething(seen, r)
    ensures (exists j | 0 <= j < 3 :: GoesLive(seen, r, AI_CHANNELS[j])) <==> GoesLiveSomewhere(seen, r)
  {
    hide Changes, GoesLive;
    assert Changes(seen, r, AI_CHANNELS[0]) || Changes(seen, r, AI_CHANNELS[1]) || Changes(seen, r, AI_CHANNELS[2])
      <==> ChangesSomething(seen, r);
    assert GoesLive(seen, r, AI_CHANNELS[0]) || GoesLive(seen, r, AI_CHANNELS[1]) || GoesLive(seen, r, AI_CHANNELS[2])
      <==> GoesLiveSomewhere(seen, r);
  }

  method ChangedRows(seen: Metadata, r: ModesRequest) returns (rows: seq<Row>, goingLive: bool)
    ensures rows == Rows(seen, r, 3)
    ensures rows != [] <==> ChangesSomething(seen, r)
    ensures goingLive <==> GoesLiveSomewhere(seen, r)
  {
    hide Reason, ReasonField, NextMode, Metadata.Mode;
    rows, goingLive := [], false;
    for i := 0 to 3
      invariant rows == Rows(seen, r, i)
      invariant rows != [] <==> exists j | 0 <= j < i :: Changes(seen, r, AI_CHANNELS[j])
      invariant goingLive <==> exists j | 0 <= j < i :: GoesLive(seen, r, AI_CHANNELS[j])
    {
      var c := AI_CHANNELS[i];
      if seen.FromLegacy() || NextMode(seen, r, c) != seen.Mode(c) {
        rows := rows + [RowFor(seen, r, c)];
        goingLive := goingLive || NextMode(seen, r, c) == "live";
      }
    }
    Over3(seen, r);
  }

  // ----- What a request is owed, in its own words

  /** The request chooses a mode for some channel, and a real one wherever it does. */
  predicate WellAsked(r: ModesRequest) {
    && (exists c :: c != ShadowDrafts && Asks(r, c))
    && (forall c | c != ShadowDrafts && Asks(r, c) :: r.modes.value[c] in {"off", "training", "testing", "live"})
  }

  /** Something would be different, if only that the modes no longer come from the old switch. */
  predicate Differs(seen: Metadata, r: ModesRequest) {
    seen.FromLegacy() || exists c :: c != ShadowDrafts && Asks(r, c) && r.modes.value[c] != seen.Mode(c)
  }

  /** A channel would newly be configured live: by name, or by the old switch when it is not named. */
  predicate PutsLive(seen: Metadata, r: ModesRequest) {
    || (exists c :: c != ShadowDrafts && Asks(r, c) && r.modes.value[c] == "live"
                    && (seen.FromLegacy() || seen.Mode(c) != "live"))
    || (seen.FromLegacy() && seen.aiAgentEnabled && exists c :: c != ShadowDrafts && !Asks(r, c))
  }

  function Position(c: Channel): nat {
    match c
    case Sms => 0
    case Email => 1
    case Webchat => 2
    case ShadowDrafts => 3
  }

  predicate IsFirstInvalid(r: ModesRequest, c: Channel) {
    Invalid(r, c) && forall earlier | Position(earlier) < Position(c) :: !Invalid(r, earlier)
  }

  predicate AnsweredRight(seen: Metadata, r: ModesRequest, answer: Answer) {
    var phrase, reason := Trim(r.confirmLive) == "ENABLE LIVE", |Trim(r.reason)| >= 5;
    && (answer == NotAdmin <==> !r.admin)
    && (answer == NothingChosen || answer.InvalidMode? <==> r.admin && !WellAsked(r))
    && (answer == NothingChosen ==> forall c | c != ShadowDrafts :: !Asks(r, c))
    && (answer == NoChanges <==> r.admin && WellAsked(r) && !Differs(seen, r))
    && (answer == Unconfirmed <==> r.admin && WellAsked(r) && Differs(seen, r) && PutsLive(seen, r) && !phrase)
    && (answer == ReasonMissing <==>
          r.admin && WellAsked(r) && Differs(seen, r) && PutsLive(seen, r) && phrase && !reason)
    && (answer.InvalidMode? ==> IsFirstInvalid(r, answer.channel))
  }

  /** The row a changed channel is owed, told from the settings before and after. */
  function ChangeOf(before: Metadata, after: Metadata, c: Channel, reason: string): seq<Row> {
    if before.FromLegacy() || before.Mode(c) != after.Mode(c) then
      [Row(c, before.Mode(c), after.Mode(c), if before.FromLegacy() then "legacy" else "configured",
           ReasonField(reason))]
    else []
  }

  /** What a write leaves: the modes asked for, the others as they were, the switch in agreement, a row per change. */
  predicate UpdatedRight(before: Org, after: Org, r: ModesRequest) {
    var was, now := before.metadata, after.metadata;
    && now.configured.Some? && now.shadowDrafts == was.shadowDrafts
    && (forall c | c != ShadowDrafts :: now.Mode(c) == if Asks(r, c) then r.modes.value[c] else was.Mode(c))
    && (now.aiAgentEnabled <==> exists c :: c != ShadowDrafts && now.Mode(c) == "live")
    && after.log == before.log + (ChangeOf(was, now, Sms, r.reason) + ChangeOf(was, now, Email, r.reason)
                                  + ChangeOf(was, now, Webchat, r.reason))
  }

  lemma OneOfThree(c: Channel)
    requires c != ShadowDrafts
    ensures c == Sms || c == Email || c == Webchat
  {
  }

  lemma WellAskedExactlyWhen(r: ModesRequest)
    ensures WellAsked(r) <==> Refusal(r).None?
    ensures Refusal(r).Some? ==>
      var answer := Refusal(r).value;
      && (answer == NothingChosen || answer.InvalidMode?)
      && (answer == NothingChosen ==> forall c | c != ShadowDrafts :: !Asks(r, c))
      && (answer.InvalidMode? ==> IsFirstInvalid(r, answer.channel))
  {
    if WellAsked(r) {
      var c :| c != ShadowDrafts && Asks(r, c);
      OneOfThree(c);
      assert !Invalid(r, Sms) && !Invalid(r, Email) && !Invalid(r, Webchat);
    }
    if Refusal(r).None? {
      assert Asks(r, Sms) || Asks(r, Email) || Asks(r, Webchat);
      assert !Invalid(r, Sms) && !Invalid(r, Email) && !Invalid(r, Webchat);
      forall c | c != ShadowDrafts && Asks(r, c)
        ensures r.modes.value[c] in {"off", "training", "testing", "live"}
      {
        OneOfThree(c);
      }
    }
  }

  lemma DiffersExactlyWhen(seen: Metadata, r: ModesRequest)
    ensures Differs(seen, r) <==> ChangesSomething(seen, r)
  {
    hide IsAiMode, Metadata.Mode;
    if c :| c != ShadowDrafts && Asks(r, c) && r.modes.value[c] != seen.Mode(c) {
      OneOfThree(c);
      assert Changes(seen, r, c);
    }
    if ChangesSomething(seen, r) {
      assert Changes(seen, r, Sms) || Changes(seen, r, Email) || Changes(seen, r, Webchat);
    }
  }

  lemma PutsLiveExactlyWhen(seen: Metadata, r: ModesRequest)
    ensures PutsLive(seen, r) <==> GoesLiveSomewhere(seen, r)
  {
    hide IsAiMode;
    forall c | c != ShadowDrafts && GoesLive(seen, r, c)
      ensures GoesLiveSomewhere(seen, r)
    {
      OneOfThree(c);
    }
    assert GoesLiveSomewhere(seen, r) ==> exists c :: c != ShadowDrafts && GoesLive(seen, r, c);
    assert PutsLive(seen, r) <==> exists c :: c != ShadowDrafts && GoesLive(seen, r, c);
  }

  lemma DecisionIsRight(seen: Metadata, r: ModesRequest)
    ensures AnsweredRight(seen, r, Decide(seen, r))
  {
    WellAskedExactlyWhen(r);
    DiffersExactlyWhen(seen, r);
    PutsLiveExactlyWhen(seen, r);
    hide WellAsked, Differs, PutsLive, IsFirstInvalid, Refusal, ChangesSomething, GoesLiveSomewhere, IsAiMode, Asks;
  }

  lemma RowsOfThree(seen: Metadata, r: ModesRequest)
    ensures Rows(seen, r, 3) == (if Changes(seen, r, Sms) then [RowFor(seen, r, Sms)] else [])
                              + (if Changes(seen, r, Email) then [RowFor(seen, r, Email)] else [])
                              + (if Changes(seen, r, Webchat) then [RowFor(seen, r, Webchat)] else [])
  {
    hide Changes, RowFor;
    assert Rows(seen, r, 0) == [];
    assert AI_CHANNELS[0] == Sms && AI_CHANNELS[1] == Email && AI_CHANNELS[2] == Webchat;
    assert Rows(seen, r, 1) == if Changes(seen, r, Sms) then [RowFor(seen, r, Sms)] else [];
    assert Rows(seen, r, 3) == Rows(seen, r, 2) + if Changes(seen, r, Webchat) then [RowFor(seen, r, Webchat)] else [];
  }

  lemma OffIsMode()
    ensures IsAiMode("off") && IsAiMode("live")
  {
  }

  lemma NextIsMode(seen: Metadata, r: ModesRequest, c: Channel)
    requires Decide(seen, r) == Updated && c != ShadowDrafts
    ensures IsAiMode(NextMode(seen, r, c))
  {
    hide IsAiMode, Confirms, GivesReason, Changes, GoesLive;
    OffIsMode();
    match c
    case Sms => assert !Invalid(r, Sms);
    case Email => assert !Invalid(r, Email);
    case Webchat => assert !Invalid(r, Webchat);
  }

  lemma WrittenMode(stored: Metadata, seen: Metadata, m: ModesRequest, c: Channel)
    requires Decide(seen, m) == Updated
    ensures Written(stored, seen, Modes(m)).Setting(c)
         == if c == ShadowDrafts then stored.Setting(c) else NextMode(seen, m, c)
  {
    hide Decide, NextMode, IsAiMode;
    if c != ShadowDrafts {
      NextIsMode(seen, m, c);
      assert c in Next(seen, m) && Next(seen, m)[c] == NextMode(seen, m, c);
    }
  }

  /** The rows of a write tell the settings before and after it. */
  lemma RowsTellChanges(seen: Metadata, r: ModesRequest)
    requires Decide(seen, r) == Updated
    ensures var after := Written(seen, seen, Modes(r));
      Rows(seen, r, 3) == ChangeOf(seen, after, Sms, r.reason) + ChangeOf(seen, after, Email, r.reason)
                          + ChangeOf(seen, after, Webchat, r.reason)
  {
    hide Decide, Metadata.Mode, NextMode, ReasonField;
    var after := Written(seen, seen, Modes(r));
    forall c | c != ShadowDrafts
      ensures (if Changes(seen, r, c) then [RowFor(seen, r, c)] else []) == ChangeOf(seen, after, c, r.reason)
    {
      WrittenMode(seen, seen, r, c);
    }
    RowsOfThree(seen, r);
  }

  lemma LiveInNext(next: map<Channel, string>)
    requires next.Keys == {Sms, Email, Webchat}
    ensures AnyChannelLive(next) <==> next[Sms] == "live" || next[Email] == "live" || next[Webchat] == "live"
  {
    assert AI_CHANNELS[0] == Sms && AI_CHANNELS[1] == Email && AI_CHANNELS[2] == Webchat;
  }

  lemma ServedRight(org: Org, r: ModesRequest)
    requires Decide(org.metadata, r) == Updated
    ensures UpdatedRight(org, Serve(org, Modes(r)), r)
  {
    hide Decide, Metadata.Mode, IsAiMode, ChangeOf, Rows;
    var seen, after, next := org.metadata, Serve(org, Modes(r)).metadata, Next(org.metadata, r);
    forall c | c != ShadowDrafts
      ensures after.Mode(c) == next[c] == if Asks(r, c) then r.modes.value[c] else seen.Mode(c)
    {
      WrittenMode(seen, seen, r, c);
      OneOfThree(c);
    }
    LiveInNext(next);
    if c :| c != ShadowDrafts && after.Mode(c) == "live" {
      OneOfThree(c);
    }
    RowsTellChanges(seen, r);
  }

  class Organization {
    var metadata: Metadata
    var log: seq<Row>

    function Value(): Org
      reads this
    {
      Org(metadata, log)
    }

    method UpdateAiModes(r: ModesRequest) returns (answer: Answer)
      modifies this
      ensures AnsweredRight(old(metadata), r, answer)
      ensures answer != Updated ==> unchanged(this)
      ensures answer == Updated ==> UpdatedRight(old(Value()), Value(), r)
      ensures answer == Decide(old(metadata), r)
      ensures Value() == Serve(old(Value()), Modes(r))
    {
      assert log + [] == log;
      DecisionIsRight(metadata, r);
      if Decide(metadata, r) == Updated {
        ServedRight(Value(), r);
      }
      hide Reason, ReasonField, IsAiMode, Confirms, GivesReason, Invalid, Asks, Rows, NextMode, Changes, GoesLive;
      hide AnsweredRight, UpdatedRight, Metadata.Mode;
      if !r.admin {
        return NotAdmin;
      }
      var refusal := CheckModes(r);
      if refusal.Some? {
        return refusal.value;
      }
      var rows, goingLive := ChangedRows(metadata, r);
      if rows == [] {
        return NoChanges;
      }
      if goingLive {
        if !Confirms(r) {
          return Unconfirmed;
        }
        if !GivesReason(r) {
          return ReasonMissing;
        }
      }
      var next := Next(metadata, r);
      metadata := metadata.(configured := Some(next), aiAgentEnabled := AnyChannelLive(next));
      log := log + rows;
      answer := Updated;
    }

    method UpdateShadowDrafts(r: ShadowRequest) returns (answer: ShadowAnswer)
      modifies this
      ensures answer == ShadowNotAdmin <==> !r.admin
      ensures answer == NotBoolean <==> r.admin && r.enabled.None?
      ensures answer == NoShadowChanges <==> r.admin && r.enabled == Some(old(metadata).shadowDrafts)
      ensures answer != ShadowUpdated ==> unchanged(this)
      ensures answer == ShadowUpdated ==>
        && r.enabled == Some(metadata.shadowDrafts)
        && metadata == old(metadata).(shadowDrafts := !old(metadata).shadowDrafts)
        && log == old(log) + [Row(ShadowDrafts, OnOff(old(metadata).shadowDrafts), OnOff(metadata.shadowDrafts),
                                  "configured", ReasonField(r.reason))]
      ensures Value() == Serve(old(Value()), Shadow(r))
    {
      assert log + [] == log;
      if !r.admin {
        return ShadowNotAdmin;
      }
      if r.enabled.None? {
        return NotBoolean;
      }
      var enabled, current := r.enabled.value, metadata.shadowDrafts;
      answer := NoShadowChanges;
      if current != enabled {
        answer := ShadowUpdated;
        metadata := metadata.(shadowDrafts := enabled);
        log := log + [Row(ShadowDrafts, OnOff(current), OnOff(enabled), "configured", ReasonField(r.reason))];
      }
    }
  }

  // ----- The log of one channel

  function RowsOf(log: seq<Row>, c: Channel): seq<Row> {
    if log == [] then []
    else
      var last := log[|log| - 1];
      RowsOf(log[..|log| - 1], c) + (if last.channel == c then [last] else [])
  }

  /** Following the rows from `start` leads to `end`, each row continuing the one before. */
  predicate Path(start: string, rows: seq<Row>, end: string) {
    if rows == [] then start == end
    else
      var last := rows[|rows| - 1];
      last.toMode == end && Path(start, rows[..|rows| - 1], last.fromMode)
  }

  lemma {:induction false} RowsOfAppended(log: seq<Row>, more: seq<Row>, c: Channel)
    ensures RowsOf(log + more, c) == RowsOf(log, c) + RowsOf(more, c)
  {
    if more == [] {
      assert log + more == log;
    } else {
      assert (log + more)[..|log + more| - 1] == log + more[..|more| - 1];
      RowsOfAppended(log, more[..|more| - 1], c);
    }
  }

  lemma OneRow(row: Row, c: Channel)
    ensures RowsOf([row], c) == if row.channel == c then [row] else []
  {
    assert [row][..0] == [];
    assert RowsOf([row], c) == RowsOf([row][..0], c) + (if row.channel == c then [row] else []);
  }

  lemma LogsOneMore(before: seq<Row>, seen: Metadata, r: ModesRequest, next: Channel, c: Channel)
    ensures var row := if Changes(seen, r, next) then [RowFor(seen, r, next)] else [];
            RowsOf(before + row, c) == RowsOf(before, c) + (if next == c then row else [])
  {
    hide Changes, RowsOf;
    if Changes(seen, r, next) {
      RowsOfAppended(before, [RowFor(seen, r, next)], c);
      OneRow(RowFor(seen, r, next), c);
    } else {
      assert before + [] == before;
    }
    assert RowsOf(before, c) + [] == RowsOf(before, c);
  }

  lemma NoRows(c: Channel)
    ensures RowsOf([], c) == []
  {
  }

  lemma {:induction false} LoggedRows(seen: Metadata, r: ModesRequest, n: nat, c: Channel)
    requires n <= 3
    ensures RowsOf(Rows(seen, r, n), c) == if Position(c) < n && Changes(seen, r, c) then [RowFor(seen, r, c)] else []
  {
    hide Changes, RowsOf, RowFor;
    if n == 0 {
      NoRows(c);
    } else {
      LoggedRows(seen, r, n - 1, c);
      LogsOneMore(Rows(seen, r, n - 1), seen, r, AI_CHANNELS[n - 1], c);
      assert Position(AI_CHANNELS[n - 1]) == n - 1;
    }
  }

  lemma {:induction false} PathExtends(start: string, rows: seq<Row>, row: Row)
    ensures forall end :: Path(start, rows + [row], end) <==> end == row.toMode && Path(start, rows, row.fromMode)
  {
    assert (rows + [row])[..|rows|] == rows;
  }

  /** Where a path ends is settled by its start and rows. */
  lemma PathIsUnique(start: string, rows: seq<Row>, end: string, other: string)
    requires Path(start, rows, end) && Path(start, rows, other)
    ensures end == other
  {
  }

  /** Rows that lead somewhere, one by one. */
  lemma {:induction false} PathLinks(start: string, rows: seq<Row>, end: string)
    requires Path(start, rows, end)
    ensures rows == [] ==> start == end
    ensures rows != [] ==> rows[0].fromMode == start && rows[|rows| - 1].toMode == end
    ensures forall i | 0 < i < |rows| :: rows[i].fromMode == rows[i - 1].toMode
  {
    if rows != [] {
      PathLinks(start, rows[..|rows| - 1], rows[|rows| - 1].fromMode);
    }
  }

  /** Two stretches of rows make a path exactly when they meet. */
  lemma {:induction false} PathJoins(start: string, a: seq<Row>, b: seq<Row>, end: string)
    ensures Path(start, a + b, end) <==> exists mid :: Path(start, a, mid) && Path(mid, b, end)
  {
    if b == [] {
      assert a + b == a;
      if Path(start, a, end) {
        assert Path(end, b, end);
      }
    } else {
      var front, last := b[..|b| - 1], b[|b| - 1];
      assert (a + b)[..|a + b| - 1] == a + front;
      PathJoins(start, a, front, last.fromMode);
      if Path(start, a + b, end) {
        var mid :| Path(start, a, mid) && Path(mid, front, last.fromMode);
        assert Path(mid, b, end);
      }
      if mid :| Path(start, a, mid) && Path(mid, b, end) {
        assert Path(mid, front, last.fromMode);
      }
    }
  }

  // ----- What a write does to one channel

  /** Where a channel stands is where its log leads from where it stood. */
  predicate Accounted(start: Metadata, org: Org, c: Channel) {
    Path(start.Setting(c), RowsOf(org.log, c), org.metadata.Setting(c))
  }

  /** The settings that a request writes, asked for or not. */
  predicate Covers(r: Request, c: Channel) {
    r.Shadow? <==> c == ShadowDrafts
  }

  /** A covered channel is set to what was chosen for it, and logged if that is not what was seen. */
  lemma WrittenChannel(stored: Metadata, seen: Metadata, r: Request, c: Channel)
    requires Writes(seen, r)
    ensures !Covers(r, c) ==>
      RowsOf(RowsFor(seen, r), c) == [] && Written(stored, seen, r).Setting(c) == stored.Setting(c)
    ensures Covers(r, c) ==>
      var rows, to := RowsOf(RowsFor(seen, r), c), Written(stored, seen, r).Setting(c);
      if rows == [] then to == seen.Setting(c)
      else |rows| == 1 && rows[0].fromMode == seen.Setting(c) && rows[0].toMode == to
  {
    hide Decide, RowsOf, Rows, ReasonField;
    match r
    case Modes(m) =>
      LoggedRows(seen, m, 3, c);
      WrittenMode(stored, seen, m, c);
      hide Next, NextMode;
    case Shadow(w) =>
      OneRow(RowsFor(seen, r)[0], c);
  }

  /** A logged row really changes something, unless it is the first one, that leaves the legacy switch behind. */
  predicate Flips(row: Row) {
    row.fromMode != row.toMode || (row.fromSource == "legacy" && row.channel != ShadowDrafts)
  }

  /** A row that goes live from elsewhere carries its reason. */
  predicate LiveWithReason(row: Row) {
    row.toMode == "live" ==> row.reason.Some? && |row.reason.value| >= MIN_LIVE_REASON_LENGTH
  }

  predicate Sound(log: seq<Row>) {
    forall i | 0 <= i < |log| :: Flips(log[i]) && LiveWithReason(log[i])
  }

  lemma WrittenRowIsSound(seen: Metadata, r: ModesRequest, c: Channel)
    requires c != ShadowDrafts && Changes(seen, r, c) && Decide(seen, r) == Updated
    ensures Flips(RowFor(seen, r, c)) && LiveWithReason(RowFor(seen, r, c))
  {
    hide Reason, NextMode, Refusal, Confirms, IsAiMode;
    RefusalIsNoUpdate(r);
    if NextMode(seen, r, c) == "live" {
      assert GoesLiveSomewhere(seen, r) by {
        assert GoesLive(seen, r, c);
      }
      assert Reason(r.reason) != "";
    }
  }

  lemma {:induction false} WrittenRowsAreSound(seen: Metadata, r: ModesRequest, n: nat)
    requires n <= 3 && Decide(seen, r) == Updated
    ensures Sound(Rows(seen, r, n))
  {
    hide Decide, Flips, LiveWithReason;
    if n > 0 {
      WrittenRowsAreSound(seen, r, n - 1);
      if Changes(seen, r, AI_CHANNELS[n - 1]) {
        WrittenRowIsSound(seen, r, AI_CHANNELS[n - 1]);
      }
    }
  }

  lemma LoggedRowsAreSound(seen: Metadata, r: Request)
    ensures Sound(RowsFor(seen, r))
  {
    hide Decide, Rows, Reason;
    match r
    case Modes(m) =>
      if Writes(seen, r) {
        WrittenRowsAreSound(seen, m, 3);
      }
    case Shadow(w) =>
      assert OnOff(true) != OnOff(false) && OnOff(true) != "live" && OnOff(false) != "live";
  }

  /** The old switch agrees with the modes once these are configured. */
  predicate SwitchAgrees(m: Metadata) {
    m.configured.Some? ==>
      (m.aiAgentEnabled <==> m.Mode(Sms) == "live" || m.Mode(Email) == "live" || m.Mode(Webchat) == "live")
  }

  /** Modes and switch are set in one write, so what was seen does not matter. */
  lemma WriteSetsSwitch(stored: Metadata, seen: Metadata, r: Request)
    requires SwitchAgrees(stored)
    ensures SwitchAgrees(Written(stored, seen, r))
  {
    hide Decide, NextMode, IsAiMode;
    if Writes(seen, r) && r.Modes? {
      var after, next := Written(stored, seen, r), Next(seen, r.modes);
      forall c | c != ShadowDrafts
        ensures after.Mode(c) == next[c]
      {
        WrittenMode(stored, seen, r.modes, c);
      }
      LiveInNext(next);
    }
  }

  // ----- Into live

  predicate ConfiguredLive(m: Metadata, c: Channel) {
    m.configured.Some? && m.Mode(c) == "live"
  }

  /** An admin's request with the phrase and a reason. */
  predicate Confirming(r: Request) {
    r.Modes? && r.modes.admin && Confirms(r.modes) && GivesReason(r.modes)
  }

  /** Such a request that chooses live for this very channel. */
  predicate AsksForLive(r: Request, c: Channel) {
    Confirming(r) && Asks(r.modes, c) && r.modes.modes.value[c] == "live"
  }

  /** Such a request that says nothing of the channel, and found it live by the old switch. */
  predicate TakesOverLive(seen: Metadata, r: Request, c: Channel) {
    Confirming(r) && !Asks(r.modes, c) && seen.FromLegacy() && seen.aiAgentEnabled
  }

  /**
   A write puts a channel live only if its own request is confirmed and asks for that channel, or takes it
   over from the old switch, or had read it configured live.
   */
  lemma EnteringLiveIsConfirmed(stored: Metadata, seen: Metadata, r: Request, c: Channel)
    requires c != ShadowDrafts && ConfiguredLive(Written(stored, seen, r), c) && !ConfiguredLive(stored, c)
    ensures AsksForLive(r, c) || TakesOverLive(seen, r, c) || ConfiguredLive(seen, c)
  {
    hide Confirms, GivesReason, Refusal, IsAiMode;
    if Writes(seen, r) && r.Modes? {
      RefusalIsNoUpdate(r.modes);
      WrittenMode(stored, seen, r.modes, c);
      if !ConfiguredLive(seen, c) {
        assert GoesLive(seen, r.modes, c);
      }
    }
  }

  /** With the old switch on, a request that goes through puts every channel live that it does not name. */
  lemma OldSwitchIsTakenOver(stored: Metadata, seen: Metadata, r: Request, c: Channel)
    requires c != ShadowDrafts && r.Modes? && Writes(seen, r) && !Asks(r.modes, c)
    requires seen.FromLegacy() && seen.aiAgentEnabled
    ensures ConfiguredLive(Written(stored, seen, r), c) && TakesOverLive(seen, r, c)
  {
    hide Confirms, GivesReason, Refusal;
    RefusalIsNoUpdate(r.modes);
    WrittenMode(stored, seen, r.modes, c);
    assert GoesLive(seen, r.modes, c);
  }

  /** Modes once configured stay configured. */
  lemma StaysConfiguredBy(stored: Metadata, seen: Metadata, r: Request)
    requires stored.configured.Some?
    ensures Written(stored, seen, r).configured.Some?
  {
    hide Decide, IsAiMode;
  }
}
