/**
 Coaching rules of the AI agent. A rule may be created, edited, disabled, turned back on and
 deleted by requests that overlap in time; turning a rule back on reads it, checks it, and writes
 only if what was checked is still there. Each database operation is one atomic step.
 */
module AiAgentCoaching {
  import opened Text

  datatype Status = Active | Disabled | Deleted

  /** A stored rule; `approved` are the money amounts a manager allowed. */
  datatype Rule = Rule(status: Status, instruction: Option<string>, approved: Option<seq<string>>)

  /** The safety checks, left open: a text's issues (money allowed or not), its amounts, and when two lists agree. */
  datatype Gate = Gate(
    issues: (string, bool) -> seq<string>,
    figures: string -> seq<string>,
    same: (Option<seq<string>>, seq<string>) -> bool)

  /** What is known of them: allowing money adds no issue, and a non-empty list agrees with itself. */
  ghost predicate Sound(g: Gate) {
    && (forall text :: g.issues(text, false) == [] ==> g.issues(text, true) == [])
    && (forall amounts :: amounts != [] ==> g.same(Some(amounts), amounts))
  }

  datatype Reply = Ok | BadRequest | NotFound | Conflict

  const MAX_INSTRUCTION: nat := 800

  predicate Acceptable(instruction: string) {
    0 < |instruction| <= MAX_INSTRUCTION
  }

  /** The new text passes the gate, and its amounts, if any, were allowed. */
  predicate AmountDecision(g: Gate, instruction: string, allowed: bool) {
    var amounts := g.figures(instruction);
    g.issues(instruction, amounts != []) == [] && (amounts == [] || allowed)
  }

  function Approval(g: Gate, instruction: string): Option<seq<string>> {
    var amounts := g.figures(instruction);
    if amounts == [] then None else Some(amounts)
  }

  /** The rule passes the gate for its current text and approved amounts. */
  predicate Safe(g: Gate, rule: Rule) {
    var text := rule.instruction.GetOr("");
    g.issues(text, g.same(rule.approved, g.figures(text))) == []
  }

  // ----- What each operation does

  function Created(g: Gate, instruction: string, allowed: bool): (Option<Rule>, Reply) {
    if Acceptable(Trim(instruction)) && AmountDecision(g, Trim(instruction), allowed) then
      (Some(Rule(Active, Some(Trim(instruction)), Approval(g, Trim(instruction)))), Ok)
    else (None, BadRequest)
  }

  datatype NewStatus = Keep | ToActive | ToDisabled | Unknown

  datatype Body = Body(instruction: Option<string>, allowAmounts: bool, status: NewStatus)

  predicate BodyAccepted(g: Gate, b: Body) {
    && (b.instruction.Some? ==>
          Acceptable(Trim(b.instruction.value)) && AmountDecision(g, Trim(b.instruction.value), b.allowAmounts))
    && !b.status.Unknown?
  }

  /** Turning a rule back on without giving its text: the write is guarded by what was read. */
  predicate Guarded(b: Body) {
    b.status.ToActive? && b.instruction.None?
  }

  predicate Present(doc: Option<Rule>) {
    doc.Some? && !doc.value.status.Deleted?
  }

  /** The read of a guarded update: the rule as it stands, if it may be turned on. */
  function ReadForReactivation(g: Gate, doc: Option<Rule>): (Option<Rule>, Reply) {
    if !Present(doc) then (None, NotFound)
    else if !doc.value.status.Active? && !Safe(g, doc.value) then (None, BadRequest)
    else (doc, Ok)
  }

  /** The filter of the write. */
  predicate FilterMatches(doc: Option<Rule>, snapshot: Option<Rule>) {
    match snapshot
    case None => Present(doc)
    case Some(read) =>
      doc.Some? && doc.value.status == read.status
      && (!read.status.Active? ==> doc.value.instruction == read.instruction)
  }

  function Edited(g: Gate, rule: Rule, b: Body): Rule {
    var withText :=
      if b.instruction.None? then rule
      else
        var text := Trim(b.instruction.value);
        rule.(instruction := Some(text), approved := Approval(g, text));
    match b.status
    case ToActive => withText.(status := Active)
    case ToDisabled => withText.(status := Disabled)
    case _ => withText
  }

  /** The write of an update. A guarded one carries the rule it read. */
  function Updated(g: Gate, doc: Option<Rule>, b: Body, snapshot: Option<Rule>): (Option<Rule>, Reply) {
    if !BodyAccepted(g, b) then (doc, BadRequest)
    else if FilterMatches(doc, snapshot) then (Some(Edited(g, doc.value, b)), Ok)
    else if snapshot.Some? && Present(doc) then (doc, Conflict)
    else (doc, NotFound)
  }

  function Removed(doc: Option<Rule>): (Option<Rule>, Reply) {
    if Present(doc) then (Some(doc.value.(status := Deleted)), Ok) else (doc, NotFound)
  }

  // ----- The stored document and the handlers that change it

  class CoachingRule {
    var doc: Option<Rule>

    method Create(g: Gate, instruction: string, allowed: bool) returns (reply: Reply)
      requires doc == None
      modifies this
      ensures var text, amounts := Trim(instruction), g.figures(Trim(instruction));
        && (reply == Ok <==>
              0 < |text| <= 800 && g.issues(text, amounts != []) == [] && (amounts != [] ==> allowed))
        && (reply == Ok ==> doc == Some(Rule(Active, Some(text), if amounts == [] then None else Some(amounts))))
      ensures reply != Ok ==> reply == BadRequest && doc == None
      ensures (doc, reply) == Created(g, instruction, allowed)
    {
      var text := Trim(instruction);
      if |text| == 0 || |text| > MAX_INSTRUCTION {
        return BadRequest;
      }
      var amounts := g.figures(text);
      if g.issues(text, |amounts| > 0) != [] || (|amounts| > 0 && !allowed) {
        return BadRequest;
      }
      doc := Some(Rule(Active, Some(text), if |amounts| > 0 then Some(amounts) else None));
      reply := Ok;
    }

    /** The update handler up to and including its database write; `snapshot` is what a guarded one read. */
    method Update(g: Gate, b: Body, snapshot: Option<Rule>) returns (reply: Reply)
      requires snapshot.Some? <==> Guarded(b)
      requires snapshot.Some? ==> !snapshot.value.status.Deleted?
      modifies this
      ensures reply != Ok ==> doc == old(doc)
      ensures reply == Ok ==> old(doc).Some? && doc.Some? && !old(doc).value.status.Deleted?
      ensures reply == Ok ==>
        && (b.status.ToActive? ==> doc.value.status == Active)
        && (b.status.ToDisabled? ==> doc.value.status == Disabled)
        && (b.status.Keep? ==> doc.value.status == old(doc).value.status)
      ensures reply == Ok && b.instruction.None? ==>
        doc.value.instruction == old(doc).value.instruction && doc.value.approved == old(doc).value.approved
      ensures reply == Ok && b.instruction.Some? ==>
        var text, amounts := Trim(b.instruction.value), g.figures(Trim(b.instruction.value));
        doc.value.instruction == Some(text) && doc.value.approved == if amounts == [] then None else Some(amounts)
      ensures (doc, reply) == Updated(g, old(doc), b, snapshot)
    {
      var setInstruction: Option<string> := None;
      var setApproval: Option<seq<string>> := None;
      var unsetApproval := false;
      if b.instruction.Some? {
        var text := Trim(b.instruction.value);
        if |text| == 0 || |text| > MAX_INSTRUCTION {
          return BadRequest;
        }
        var amounts := g.figures(text);
        if g.issues(text, |amounts| > 0) != [] || (|amounts| > 0 && !b.allowAmounts) {
          return BadRequest;
        }
        setInstruction := Some(text);
        if |amounts| > 0 {
          setApproval := Some(amounts);
        } else {
          unsetApproval := true;
        }
      }
      if b.status.Unknown? {
        return BadRequest;
      }
      if !FilterMatches(doc, snapshot) {
        reply := if snapshot.Some? && Present(doc) then Conflict else NotFound;
        return;
      }
      var rule := doc.value;
      if setInstruction.Some? {
        rule := rule.(instruction := setInstruction);
      }
      if setApproval.Some? {
        rule := rule.(approved := setApproval);
      }
      if unsetApproval {
        rule := rule.(approved := None);
      }
      if b.status.ToActive? {
        rule := rule.(status := Active);
      } else if b.status.ToDisabled? {
        rule := rule.(status := Disabled);
      }
      doc := Some(rule);
      reply := Ok;
    }

    method Delete() returns (reply: Reply)
      modifies this
      ensures reply == Ok <==> old(doc).Some? && !old(doc).value.status.Deleted?
      ensures reply == Ok ==> doc == Some(old(doc).value.(status := Deleted))
      ensures reply != Ok ==> reply == NotFound && doc == old(doc)
      ensures (doc, reply) == Removed(old(doc))
    {
      if doc.None? || doc.value.status.Deleted? {
        return NotFound;
      }
      doc := Some(doc.value.(status := Deleted));
      reply := Ok;
    }
  }

  // ----- Every interleaving

  /** The rule, and what the requests that are between their read and their write have read. */
  datatype State = State(doc: Option<Rule>, held: map<nat, Rule>)

  datatype Event =
    | CreateRule(instruction: string, allowed: bool)
    | UpdateRule(body: Body)
    | BeginReactivation(request: nat)
    | FinishReactivation(request: nat)
    | DeleteRule

  const REACTIVATE: Body := Body(None, false, ToActive)

  function Step(g: Gate, s: State, e: Event): State {
    match e
    case CreateRule(instruction, allowed) =>
      if s.doc.Some? then s else s.(doc := Created(g, instruction, allowed).0)
    case UpdateRule(body) =>
      if Guarded(body) then s else s.(doc := Updated(g, s.doc, body, None).0)
    case BeginReactivation(request) =>
      var read := ReadForReactivation(g, s.doc).0;
      if read.Some? then s.(held := s.held[request := read.value]) else s.(held := s.held - {request})
    case FinishReactivation(request) =>
      if request !in s.held then s
      else State(Updated(g, s.doc, REACTIVATE, Some(s.held[request])).0, s.held - {request})
    case DeleteRule => s.(doc := Removed(s.doc).0)
  }

  function Run(g: Gate, s: State, events: seq<Event>): State {
    if events == [] then s else Step(g, Run(g, s, events[..|events| - 1]), events[|events| - 1])
  }

  /** A request that read a disabled rule passed the gate; if the text is again what it read, the rule is safe. */
  ghost predicate ReadsVouch(g: Gate, s: State) {
    forall request | request in s.held ::
      !s.held[request].status.Deleted?
      && (s.held[request].status.Disabled? && s.doc.Some? && s.doc.value.instruction == s.held[request].instruction
          ==> Safe(g, s.doc.value))
  }

  ghost predicate Invariant(g: Gate, s: State) {
    && (s.doc.Some? && s.doc.value.status.Active? ==> Safe(g, s.doc.value))
    && ReadsVouch(g, s)
  }

  /** A text that was accepted is safe with the approval stored beside it. */
  lemma AcceptedTextIsSafe(g: Gate, status: Status, text: string, allowed: bool)
    requires Sound(g) && AmountDecision(g, text, allowed)
    ensures Safe(g, Rule(status, Some(text), Approval(g, text)))
  {
    if g.figures(text) == [] {
      assert g.issues(text, false) == [] && g.issues(text, true) == [];
      if g.same(None, g.figures(text)) {
      } else {
      }
    }
  }

  /** Changing only the status changes neither text nor approval. */
  lemma SafetyIgnoresStatus(g: Gate, rule: Rule, status: Status)
    ensures Safe(g, rule.(status := status)) <==> Safe(g, rule)
  {
  }

  lemma StepKeepsInvariant(g: Gate, s: State, e: Event)
    requires Sound(g) && Invariant(g, s)
    ensures Invariant(g, Step(g, s, e))
  {
    hide Safe, AmountDecision, Approval, Sound;
    match e
    case CreateRule(instruction, allowed) =>
      if s.doc.None? && Created(g, instruction, allowed).1.Ok? {
        AcceptedTextIsSafe(g, Active, Trim(instruction), allowed);
      }
    case UpdateRule(body) =>
      if !Guarded(body) && Updated(g, s.doc, body, None).1.Ok? {
        var t := Step(g, s, e);
        if body.instruction.Some? {
          AcceptedTextIsSafe(g, t.doc.value.status, Trim(body.instruction.value), body.allowAmounts);
        } else {
          SafetyIgnoresStatus(g, s.doc.value, t.doc.value.status);
        }
      }
    case BeginReactivation(request) =>
    case FinishReactivation(request) =>
      if s.doc.Some? {
        SafetyIgnoresStatus(g, s.doc.value, Active);
      }
    case DeleteRule =>
      if s.doc.Some? {
        SafetyIgnoresStatus(g, s.doc.value, Deleted);
      }
  }

  /** In every run, whatever overlaps, an active rule passes the gate for its current text and amounts. */
  lemma {:induction false} ActiveRulesAreAlwaysSafe(g: Gate, s: State, events: seq<Event>)
    requires Sound(g) && Invariant(g, s)
    ensures Invariant(g, Run(g, s, events))
    ensures var doc := Run(g, s, events).doc; doc.Some? && doc.value.status.Active? ==> Safe(g, doc.value)
  {
    if events != [] {
      ActiveRulesAreAlwaysSafe(g, s, events[..|events| - 1]);
      StepKeepsInvariant(g, Run(g, s, events[..|events| - 1]), events[|events| - 1]);
    }
  }

  /** No run leaves `deleted`: neither the status nor the text of a deleted rule ever changes again. */
  lemma {:induction false} DeletedIsFinal(g: Gate, s: State, events: seq<Event>)
    requires Sound(g) && Invariant(g, s)
    requires s.doc.Some? && s.doc.value.status.Deleted?
    ensures Run(g, s, events).doc == s.doc
  {
    if events != [] {
      var before := Run(g, s, events[..|events| - 1]);
      DeletedIsFinal(g, s, events[..|events| - 1]);
      ActiveRulesAreAlwaysSafe(g, s, events[..|events| - 1]);
      hide Safe, Sound, AmountDecision, Approval, BodyAccepted;
      assert ReadsVouch(g, before);
    }
  }

  /** A guarded write whose rule changed text, was deleted or changed status meanwhile does not happen. */
  lemma StaleReactivationIsRefused(g: Gate, doc: Option<Rule>, read: Rule)
    requires !read.status.Deleted?
    ensures var (after, reply) := Updated(g, doc, REACTIVATE, Some(read));
      && (reply == Ok <==> (Present(doc) && doc.value.status == read.status
                            && (read.status.Disabled? ==> doc.value.instruction == read.instruction)))
      && (reply == Conflict <==> reply != Ok && Present(doc))
      && (reply != Ok ==> after == doc)
      && (reply == Ok ==> after == Some(doc.value.(status := Active)))
  {
  }

  // ----- What an accepted change leaves behind, whatever comes after it

  /** The text of a request, if it gives one, is acceptable and its amounts are allowed. */
  predicate TextAllowed(g: Gate, b: Body) {
    b.instruction.Some? ==>
      var text, amounts := Trim(b.instruction.value), g.figures(Trim(b.instruction.value));
      0 < |text| <= 800 && g.issues(text, amounts != []) == [] && (amounts != [] ==> b.allowAmounts)
  }

  /** The answer to an update, case by case. */
  lemma UpdateAnsweredExactly(g: Gate, doc: Option<Rule>, b: Body, snapshot: Option<Rule>)
    requires snapshot.Some? <==> b.status.ToActive? && b.instruction.None?
    requires snapshot.Some? ==> !snapshot.value.status.Deleted?
    ensures var reply := Updated(g, doc, b, snapshot).1;
      var stored := doc.Some? && !doc.value.status.Deleted?;
      var asRead := snapshot.None? || (
          && doc.Some? && doc.value.status == snapshot.value.status
          && (snapshot.value.status.Disabled? ==> doc.value.instruction == snapshot.value.instruction));
      && (reply == BadRequest <==> !TextAllowed(g, b) || b.status.Unknown?)
      && (reply == NotFound <==> TextAllowed(g, b) && !b.status.Unknown? && !stored)
      && (reply == Conflict <==> TextAllowed(g, b) && !b.status.Unknown? && stored && !asRead)
      && (reply == Ok <==> TextAllowed(g, b) && !b.status.Unknown? && stored && asRead)
  {
  }

  /** The event turns a rule on: it creates one, or an update or a reactivation asking for it goes through. */
  predicate Activates(g: Gate, s: State, e: Event) {
    match e
    case CreateRule(instruction, allowed) => s.doc.None? && TextAllowed(g, Body(Some(instruction), allowed, Keep))
    case UpdateRule(body) =>
      Present(s.doc) && body.status.ToActive? && body.instruction.Some? && TextAllowed(g, body)
    case FinishReactivation(request) =>
      && request in s.held && Present(s.doc) && s.doc.value.status == s.held[request].status
      && (s.doc.value.status.Disabled? ==> s.doc.value.instruction == s.held[request].instruction)
    case _ => false
  }

  /** The event turns a rule off. */
  predicate Deactivates(g: Gate, s: State, e: Event) {
    match e
    case UpdateRule(body) => Present(s.doc) && body.status.ToDisabled? && TextAllowed(g, body)
    case DeleteRule => Present(s.doc)
    case _ => false
  }

  predicate IsActive(doc: Option<Rule>) {
    doc.Some? && doc.value.status.Active?
  }

  /** Whether the rule is active after a step: turned on, or active before and not turned off. */
  lemma StepActiveExactlyWhen(g: Gate, s: State, e: Event)
    requires forall request | request in s.held :: !s.held[request].status.Deleted?
    ensures !(Activates(g, s, e) && Deactivates(g, s, e))
    ensures IsActive(Step(g, s, e).doc) <==> Activates(g, s, e) || (IsActive(s.doc) && !Deactivates(g, s, e))
  {
  }

  lemma {:induction false} HeldAreStored(g: Gate, s: State, events: seq<Event>)
    requires forall request | request in s.held :: !s.held[request].status.Deleted?
    ensures forall request | request in Run(g, s, events).held :: !Run(g, s, events).held[request].status.Deleted?
  {
    hide Created, Updated, Removed, Safe;
    if events != [] {
      HeldAreStored(g, s, events[..|events| - 1]);
    }
  }

  /**
   A rule that is off stays off until an event turns it on: after an accepted disabling or deletion
   the rule steers nothing again before a later accepted creation, activation or reactivation.
   */
  lemma {:induction false} OffUntilActivated(g: Gate, s: State, events: seq<Event>, i: nat)
    requires forall request | request in s.held :: !s.held[request].status.Deleted?
    requires i < |events| && Deactivates(g, Run(g, s, events[..i]), events[i])
    requires forall j | i < j < |events| :: !Activates(g, Run(g, s, events[..j]), events[j])
    ensures !IsActive(Run(g, s, events).doc)
  {
    hide Activates, Deactivates, Step;
    var n := |events| - 1;
    HeldAreStored(g, s, events[..n]);
    StepActiveExactlyWhen(g, Run(g, s, events[..n]), events[n]);
    if i < n {
      assert events[..n][..i] == events[..i];
      assert forall j | i < j < n :: events[..n][..j] == events[..j];
      OffUntilActivated(g, s, events[..n], i);
    }
  }

  /** Read and write in a row turn a disabled rule on exactly if it passes the gate as it stands. */
  lemma ReactivationAlone(g: Gate, s: State, request: nat)
    ensures var after := Step(g, Step(g, s, BeginReactivation(request)), FinishReactivation(request)).doc;
      match s.doc
      case None => after == None
      case Some(rule) =>
        var text := rule.instruction.GetOr("");
        var passes := g.issues(text, g.same(rule.approved, g.figures(text))) == [];
        after == Some(if rule.status.Disabled? && passes then rule.(status := Active) else rule)
  {
  }
}
