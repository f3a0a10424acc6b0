/** The session header of the chat page: inline rename with a guard, and a
    two-click delete. The component state is `(isEditing, editName,
    isDeleting)`; `sessionId` and `sessionName` are properties owned by the
    parent, which adopts the new name when a rename succeeds. Each `fetch`
    is represented by its outcome, chosen by the environment. */
module SessionHeader {
  import opened Text

  /** The component state. */
  datatype Header = Header(isEditing: bool, editName: string, isDeleting: bool)

  /** What a `fetch` came to: a response with `ok` set, a response without
      it, or a thrown exception. */
  datatype Outcome = Ok | NotOk | Threw

  /** The requests the header sends: `PUT /sessions/{id}` with body
      `{session_name}`, and `DELETE /sessions/{id}`. */
  datatype Request = Rename(sessionId: string, name: string) | Remove(sessionId: string)

  /** What the header asks of its surroundings: the `onSessionNameChange`
      callback and `router.push`. */
  datatype Effect = NameChanged(name: string) | Navigate(path: string)

  /** The state after a handler, with the requests it sent and the effects
      it caused, in order. */
  datatype Step = Step(next: Header, requests: seq<Request>, effects: seq<Effect>)

  /** The page the header leaves for after a deletion. */
  const DashboardPath: string := "/dashboard"

  /** The `maxLength` of the name input. */
  const MaxNameLength: nat := 100

  /** The state on mount: not editing, the input seeded with the current
      name, delete not armed. */
  function Init(sessionName: string): (h: Header)
    ensures !h.isEditing && !h.isDeleting && h.editName == sessionName
  {
    Header(false, sessionName, false)
  }

  /** The pencil button: editing starts from whatever `editName` holds. */
  function StartEdit(h: Header): (r: Header)
    ensures r.isEditing && r.editName == h.editName && r.isDeleting == h.isDeleting
  {
    h.(isEditing := true)
  }

  /** The input's `onChange`. */
  function ChangeName(h: Header, value: string): (r: Header)
    ensures r.editName == value && r.isEditing == h.isEditing && r.isDeleting == h.isDeleting
  {
    h.(editName := value)
  }

  /** `handleCancelEdit`: the input goes back to the current name and
      editing ends. */
  function CancelEdit(h: Header, sessionName: string): (r: Header)
    ensures !r.isEditing && r.editName == sessionName && r.isDeleting == h.isDeleting
  {
    h.(editName := sessionName, isEditing := false)
  }

  /** The rename guard: a blank name, or one equal (before trimming) to the
      current name, sends nothing. */
  predicate SkipsRename(editName: string, sessionName: string) {
    |Trim(editName)| == 0 || editName == sessionName
  }

  /** `handleSaveRename`. Editing always ends and the delete arming is
      untouched. A skipped rename restores the input; otherwise exactly one
      request carrying the trimmed name is sent, and the callback receives
      that same name on success while any failure restores the input. */
  function SaveRename(h: Header, sessionId: string, sessionName: string, outcome: Outcome): (r: Step)
    ensures !r.next.isEditing && r.next.isDeleting == h.isDeleting
    ensures SkipsRename(h.editName, sessionName) ==>
              r.requests == [] && r.effects == [] && r.next.editName == sessionName
    ensures !SkipsRename(h.editName, sessionName) ==>
              && r.requests == [Rename(sessionId, Trim(h.editName))]
              && (outcome == Ok ==> r.effects == [NameChanged(Trim(h.editName))] && r.next.editName == h.editName)
              && (outcome != Ok ==> r.effects == [] && r.next.editName == sessionName)
    ensures forall q :: q in r.requests ==> q.Rename? && q.sessionId == sessionId
                                            && 0 < |q.name| <= |h.editName| && Trim(q.name) == q.name
    ensures forall f :: f in r.effects ==> f == NameChanged(Trim(h.editName))
  {
    if SkipsRename(h.editName, sessionName) then
      Step(CancelEdit(h, sessionName), [], [])
    else
      var name := Trim(h.editName);
      TrimIdempotent(h.editName);
      var sent := [Rename(sessionId, name)];
      match outcome
      case Ok => Step(h.(isEditing := false), sent, [NameChanged(name)])
      case _ => Step(CancelEdit(h, sessionName), sent, [])
  }

  /** `handleDelete`. The input and editing mode are untouched. Unarmed, the
      click only arms; armed, it sends exactly one request, and success
      navigates away while any failure disarms. */
  function Delete(h: Header, sessionId: string, outcome: Outcome): (r: Step)
    ensures r.next.isEditing == h.isEditing && r.next.editName == h.editName
    ensures !h.isDeleting ==> r.next.isDeleting && r.requests == [] && r.effects == []
    ensures h.isDeleting ==> r.requests == [Remove(sessionId)]
    ensures h.isDeleting && outcome == Ok ==> r.next.isDeleting && r.effects == [Navigate(DashboardPath)]
    ensures h.isDeleting && outcome != Ok ==> !r.next.isDeleting && r.effects == []
  {
    if !h.isDeleting then
      Step(h.(isDeleting := true), [], [])
    else if outcome == Ok then
      Step(h, [Remove(sessionId)], [Navigate(DashboardPath)])
    else
      Step(h.(isDeleting := false), [Remove(sessionId)], [])
  }

  /** `handleKeyDown` on the name input. */
  function KeyDown(h: Header, key: string, sessionId: string, sessionName: string, outcome: Outcome): (r: Step)
    ensures key != "Enter" && key != "Escape" ==> r == Step(h, [], [])
  {
    if key == "Enter" then SaveRename(h, sessionId, sessionName, outcome)
    else if key == "Escape" then Step(CancelEdit(h, sessionName), [], [])
    else Step(h, [], [])
  }

  /** Enter is the save button and Escape the cancel button; neither sends a
      request when the rename would be skipped. */
  lemma KeysMatchButtons(h: Header, sessionId: string, sessionName: string, outcome: Outcome)
    ensures KeyDown(h, "Enter", sessionId, sessionName, outcome) == SaveRename(h, sessionId, sessionName, outcome)
    ensures var r := KeyDown(h, "Escape", sessionId, sessionName, outcome);
            r.requests == [] && r.effects == [] && r.next == CancelEdit(h, sessionName)
  {
  }

  /** Because the guard compares the untrimmed input with the current name,
      the current name with a leading blank still sends a rename, carrying
      the trimmed current name; when the current name is itself trimmed,
      that is the unchanged name. */
  lemma PaddedNameResent(h: Header, sessionId: string, sessionName: string, outcome: Outcome)
    requires |sessionName| > 0 && !IsSpace(sessionName[0])
    requires h.editName == " " + sessionName
    ensures SaveRename(h, sessionId, sessionName, outcome).requests == [Rename(sessionId, Trim(sessionName))]
    ensures Trim(sessionName) == sessionName ==>
              SaveRename(h, sessionId, sessionName, outcome).requests == [Rename(sessionId, sessionName)]
    ensures |Trim(h.editName)| > 0
  {
    var s := h.editName;
    assert s != sessionName by {
      assert s[0] != sessionName[0];
    }
    assert SkipSpaces(s, 0) == 1 by {
      assert !IsSpace(s[1]);
    }
    assert !AllSpace(s) by {
      assert !IsSpace(s[1]);
    }
    TrimShift(sessionName);
  }

  /** Trimming ignores one leading blank. */
  lemma TrimShift(t: string)
    requires |t| > 0 && !IsSpace(t[0])
    ensures Trim(" " + t) == Trim(t)
  {
    var s := " " + t;
    var a, b := Trim(s), Trim(t);
    assert SkipSpaces(s, 0) == 1 by {
      assert !IsSpace(s[1]);
    }
    assert SkipSpaces(t, 0) == 0;
    assert |a| > 0 && |b| > 0 by {
      assert !IsSpace(t[0]) && s[1] == t[0];
    }
    assert s[|b|] == t[|b| - 1];
    assert t[|a| - 1] == s[|a|];
    assert |a| == |b|;
    assert a == s[1..1 + |a|] == t[..|a|] == b;
  }

  // ---------------------------------------------------------------------
  // Traces of user actions
  // ---------------------------------------------------------------------

  /** A user action and, when it sends a request, the outcome of that
      request. */
  datatype Event =
    | EditClicked
    | Typed(value: string)
    | SaveClicked(outcome: Outcome)
    | CancelClicked
    | DeleteClicked(outcome: Outcome)
    | KeyPressed(key: string, outcome: Outcome)

  /** A request together with the outcome it met. */
  datatype Sent = Sent(request: Request, outcome: Outcome)

  /** The header and its parent after a sequence of events: the component
      state, the name the parent passes down, the requests sent and the
      effects caused. */
  datatype Session = Session(header: Header, sessionName: string, sent: seq<Sent>, effects: seq<Effect>)

  /** The name the parent holds after a handler's effects: the callback sets
      `session_name` to the new name. */
  function AdoptName(effects: seq<Effect>, sessionName: string): string
  {
    if |effects| > 0 && effects[0].NameChanged? then effects[0].name else sessionName
  }

  function WithOutcome(requests: seq<Request>, outcome: Outcome): (r: seq<Sent>)
    ensures |r| == |requests|
    ensures forall i :: 0 <= i < |r| ==> r[i] == Sent(requests[i], outcome)
  {
    seq(|requests|, i requires 0 <= i < |requests| => Sent(requests[i], outcome))
  }

  /** The handler an event runs, against the current state and name. */
  function Handle(s: Session, sessionId: string, e: Event): Step
  {
    match e
    case EditClicked => Step(StartEdit(s.header), [], [])
    case Typed(v) => Step(ChangeName(s.header, v), [], [])
    case SaveClicked(o) => SaveRename(s.header, sessionId, s.sessionName, o)
    case CancelClicked => Step(CancelEdit(s.header, s.sessionName), [], [])
    case DeleteClicked(o) => Delete(s.header, sessionId, o)
    case KeyPressed(k, o) => KeyDown(s.header, k, sessionId, s.sessionName, o)
  }

  /** The outcome met by the requests an event sends, if any. */
  function OutcomeOf(e: Event): Outcome
  {
    match e
    case SaveClicked(o) => o
    case DeleteClicked(o) => o
    case KeyPressed(_, o) => o
    case _ => Ok
  }

  /** One event, handled to completion before the next. */
  function Apply(s: Session, sessionId: string, e: Event): Session
  {
    var st := Handle(s, sessionId, e);
    Session(st.next, AdoptName(st.effects, s.sessionName),
            s.sent + WithOutcome(st.requests, OutcomeOf(e)), s.effects + st.effects)
  }

  /** The session after `events`, from mount with name `sessionName`. */
  function Run(sessionId: string, sessionName: string, events: seq<Event>): Session
  {
    if |events| == 0 then Session(Init(sessionName), sessionName, [], [])
    else Apply(Run(sessionId, sessionName, events[..|events| - 1]), sessionId, events[|events| - 1])
  }

  function DeleteClicks(events: seq<Event>): nat
  {
    if |events| == 0 then 0
    else DeleteClicks(events[..|events| - 1]) + (if events[|events| - 1].DeleteClicked? then 1 else 0)
  }

  /** The number of delete requests in `sent` that met `ok` (when `ok`) or
      failed (otherwise). */
  function Deletes(sent: seq<Sent>, ok: bool): nat
  {
    if |sent| == 0 then 0
    else
      var x := sent[|sent| - 1];
      Deletes(sent[..|sent| - 1], ok) + (if x.request.Remove? && (x.outcome == Ok) == ok then 1 else 0)
  }

  lemma {:induction false} DeletesAppend(a: seq<Sent>, b: seq<Sent>, ok: bool)
    ensures Deletes(a + b, ok) == Deletes(a, ok) + Deletes(b, ok)
    decreases |b|
  {
    if |b| == 0 {
      assert a + b == a;
    } else {
      assert (a + b)[..|a + b| - 1] == a + b[..|b| - 1];
      assert (a + b)[|a + b| - 1] == b[|b| - 1];
      DeletesAppend(a, b[..|b| - 1], ok);
    }
  }

  function Armed(h: Header): nat
  {
    if h.isDeleting then 1 else 0
  }

  /** What one event does to the delete bookkeeping: only a delete click
      touches it; unarmed it arms, armed it sends one request that either
      succeeds (staying armed) or fails (disarming). */
  lemma HandleDeletes(s: Session, sessionId: string, e: Event)
    ensures var st := Handle(s, sessionId, e);
            var w := WithOutcome(st.requests, OutcomeOf(e));
            && Deletes(w, true) == (if e.DeleteClicked? && s.header.isDeleting && e.outcome == Ok then 1 else 0)
            && Deletes(w, false) == (if e.DeleteClicked? && s.header.isDeleting && e.outcome != Ok then 1 else 0)
            && Armed(st.next) == (if e.DeleteClicked? then
                                   (if s.header.isDeleting && e.outcome != Ok then 0 else 1)
                                 else Armed(s.header))
  {
    var st := Handle(s, sessionId, e);
    var w := WithOutcome(st.requests, OutcomeOf(e));
    if |w| == 0 {
    } else {
      assert |w| == 1;
      assert w[..0] == [];
    }
  }

  /** Delete clicks are exactly accounted for: each failed deletion used two
      clicks (arm, then confirm), each successful one a single confirming
      click, and one more arms the button if it is armed now. Once a deletion
      has succeeded, either one has failed since the start or the button is
      still armed. */
  lemma {:induction false} DeleteAccounting(sessionId: string, sessionName: string, events: seq<Event>)
    ensures var s := Run(sessionId, sessionName, events);
            2 * Deletes(s.sent, false) + Deletes(s.sent, true) + Armed(s.header) == DeleteClicks(events)
    ensures var s := Run(sessionId, sessionName, events);
            Deletes(s.sent, true) > 0 ==> Deletes(s.sent, false) + Armed(s.header) >= 1
    decreases |events|
  {
    if |events| > 0 {
      var init := events[..|events| - 1];
      var e := events[|events| - 1];
      var s0 := Run(sessionId, sessionName, init);
      DeleteAccounting(sessionId, sessionName, init);
      var st := Handle(s0, sessionId, e);
      var w := WithOutcome(st.requests, OutcomeOf(e));
      HandleDeletes(s0, sessionId, e);
      DeletesAppend(s0.sent, w, true);
      DeletesAppend(s0.sent, w, false);
    }
  }

  /** Deleting takes two clicks: whenever a delete request has been sent,
      there has been at least one more delete click than delete requests. */
  lemma DeleteNeedsTwoClicks(sessionId: string, sessionName: string, events: seq<Event>)
    ensures var s := Run(sessionId, sessionName, events);
            var requests := Deletes(s.sent, true) + Deletes(s.sent, false);
            requests > 0 ==> DeleteClicks(events) >= requests + 1
  {
    DeleteAccounting(sessionId, sessionName, events);
  }

  /** The rename requests an event sends carry a non-blank, trimmed name no
      longer than the input, and the parent's new name is that name. */
  lemma HandleRenames(s: Session, sessionId: string, e: Event)
    requires |s.header.editName| <= MaxNameLength && |s.sessionName| <= MaxNameLength
    requires e.Typed? ==> |e.value| <= MaxNameLength
    ensures var st := Handle(s, sessionId, e);
            && |st.next.editName| <= MaxNameLength
            && |AdoptName(st.effects, s.sessionName)| <= MaxNameLength
            && forall q :: q in st.requests && q.Rename? ==>
                 0 < |q.name| <= MaxNameLength && Trim(q.name) == q.name
  {
    var st := Handle(s, sessionId, e);
    match e
    case SaveClicked(o) =>
      SaveRenameNames(s.header, sessionId, s.sessionName, o);
    case KeyPressed(k, o) =>
      if k == "Enter" {
        SaveRenameNames(s.header, sessionId, s.sessionName, o);
      }
    case _ =>
  }

  lemma SaveRenameNames(h: Header, sessionId: string, sessionName: string, outcome: Outcome)
    requires |h.editName| <= MaxNameLength && |sessionName| <= MaxNameLength
    ensures var st := SaveRename(h, sessionId, sessionName, outcome);
            && |st.next.editName| <= MaxNameLength
            && |AdoptName(st.effects, sessionName)| <= MaxNameLength
            && forall q :: q in st.requests && q.Rename? ==>
                 0 < |q.name| <= MaxNameLength && Trim(q.name) == q.name
  {
    var st := SaveRename(h, sessionId, sessionName, outcome);
    if |st.effects| > 0 {
      assert st.effects[0] in st.effects;
    }
  }

  /** Every rename request carries a non-blank, already trimmed name no
      longer than the input allows, provided the starting name and everything
      typed fit the input. */
  lemma {:induction false} RenameRequestsWellFormed(sessionId: string, sessionName: string, events: seq<Event>)
    requires |sessionName| <= MaxNameLength
    requires forall i :: 0 <= i < |events| && events[i].Typed? ==> |events[i].value| <= MaxNameLength
    ensures var s := Run(sessionId, sessionName, events);
            |s.header.editName| <= MaxNameLength && |s.sessionName| <= MaxNameLength
    ensures var s := Run(sessionId, sessionName, events);
            forall i :: 0 <= i < |s.sent| && s.sent[i].request.Rename? ==>
              var n := s.sent[i].request.name;
              0 < |n| <= MaxNameLength && Trim(n) == n
    decreases |events|
  {
    if |events| > 0 {
      var init := events[..|events| - 1];
      var e := events[|events| - 1];
      RenameRequestsWellFormed(sessionId, sessionName, init);
      var s0 := Run(sessionId, sessionName, init);
      var st := Handle(s0, sessionId, e);
      var w := WithOutcome(st.requests, OutcomeOf(e));
      HandleRenames(s0, sessionId, e);
      var s := Run(sessionId, sessionName, events);
      forall i | 0 <= i < |s.sent| && s.sent[i].request.Rename?
        ensures 0 < |s.sent[i].request.name| <= MaxNameLength && Trim(s.sent[i].request.name) == s.sent[i].request.name
      {
        if i >= |s0.sent| {
          assert s.sent[i] == w[i - |s0.sent|];
          assert st.requests[i - |s0.sent|] in st.requests;
        }
      }
    }
  }
}
