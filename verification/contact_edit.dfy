/**
 The contact edit loop: a scratch copy of the contact is changed field by
 field, an explicit save copies it onto the live contact, and only the exit
 choice leaves the loop. The menu's answers (already range-checked by the
 menu) and the values the field prompts read arrive as a sequence of
 choices.
 */
module ContactEdit {
  import opened Contact

  /**
   One answer to the edit menu, together with what the field prompt then
   read. `Code` gives the number the menu returns for it, which is the
   field enumeration's value for the matching case of the loop's switch.
   */
  datatype Choice =
    | Exit
    | Save
    | EditLastName(name: string)
    | EditFirstName(name: string)
    | EditPhoneNumber(number: Phone)
  {
    function Code(): (k: int)
      ensures 0 <= k <= 4
      ensures k == 0 <==> this.Exit?
      ensures k == SaveContactField <==> this.Save?
      ensures k == LastNameField <==> this.EditLastName?
      ensures k == FirstNameField <==> this.EditFirstName?
      ensures k == PhoneNumberField <==> this.EditPhoneNumber?
    {
      match this
      case Exit => 0
      case Save => 1
      case EditLastName(_) => 2
      case EditFirstName(_) => 3
      case EditPhoneNumber(_) => 4
    }
  }

  /** The saved contact and the copy being edited. */
  datatype Session = Session(live: Contact, scratch: Contact)

  /** How a run of the loop over the input ends: left by exit, or still waiting for input. */
  datatype Outcome = Finished(contact: Contact, rest: seq<Choice>) | Waiting(session: Session)

  /** Position of the first exit choice, or the length when there is none. */
  function FirstExit(choices: seq<Choice>): (k: nat)
    ensures k <= |choices|
    ensures forall i :: 0 <= i < k ==> !choices[i].Exit?
    ensures k < |choices| ==> choices[k].Exit?
  {
    if choices == [] || choices[0].Exit? then 0 else 1 + FirstExit(choices[1..])
  }

  predicate NoExit(choices: seq<Choice>) {
    forall i :: 0 <= i < |choices| ==> !choices[i].Exit?
  }

  // ---------------------------------------------------------------------------
  // Reference: what the live and scratch copies are after a run of choices
  // ---------------------------------------------------------------------------

  /** A single field change applied to a contact; save and exit change no field. */
  function Edited(c: Contact, ch: Choice): Contact {
    match ch
    case EditLastName(n) => SetLastName(c, n)
    case EditFirstName(n) => SetFirstName(c, n)
    case EditPhoneNumber(p) => SetPhoneNumber(c, p)
    case _ => c
  }

  /** The scratch copy after `done`: every field change in order, saves ignored. */
  function ScratchAfter(c: Contact, done: seq<Choice>): Contact
    decreases |done|
  {
    if done == [] then c else Edited(ScratchAfter(c, done[..|done| - 1]), done[|done| - 1])
  }

  /** The live copy after `done`: the scratch as it stood at the last save, or the original. */
  function CommittedAfter(c: Contact, done: seq<Choice>): Contact
    decreases |done|
  {
    if done == [] then c
    else if done[|done| - 1].Save? then ScratchAfter(c, done[..|done| - 1])
    else CommittedAfter(c, done[..|done| - 1])
  }

  // ---------------------------------------------------------------------------
  // The loop
  // ---------------------------------------------------------------------------

  /**
   One pass of the loop body for a choice other than exit: a field choice
   changes only the scratch copy; save copies the scratch copy onto the live
   one and leaves the scratch copy as it is.
   */
  function Step(s: Session, ch: Choice): (r: Session)
    requires !ch.Exit?
    ensures !ch.Save? ==> r.live == s.live
    ensures ch.Save? ==> r.live == s.scratch && r.scratch == s.scratch
    ensures r.scratch == Edited(s.scratch, ch)
    ensures KeyFresh(s.live) && KeyFresh(s.scratch) ==> KeyFresh(r.live) && KeyFresh(r.scratch)
  {
    match ch
    case Save => Session(s.scratch, s.scratch)
    case EditLastName(n) => s.(scratch := SetLastName(s.scratch, n))
    case EditFirstName(n) => s.(scratch := SetFirstName(s.scratch, n))
    case EditPhoneNumber(p) => s.(scratch := SetPhoneNumber(s.scratch, p))
  }

  /** The loop over the choices: runs passes until an exit choice, which returns the live copy. */
  function Run(s: Session, choices: seq<Choice>): Outcome
    decreases |choices|
  {
    if choices == [] then Waiting(s)
    else if choices[0].Exit? then Finished(s.live, choices[1..])
    else Run(Step(s, choices[0]), choices[1..])
  }

  /** Moving the first pending choice onto the done list. */
  lemma ShiftChoice(done: seq<Choice>, rest: seq<Choice>, e: nat)
    requires rest != [] && e < |rest|
    ensures (done + [rest[0]])[..|done|] == done
    ensures (done + [rest[0]]) + rest[1..] == done + rest
    ensures (done + [rest[0]]) + rest[1..][..e] == done + rest[..e + 1]
  {
  }

  /** One pass of the loop moves both copies one choice further along the reference. */
  lemma StepFollowsReference(c: Contact, done: seq<Choice>, x: Choice)
    requires !x.Exit?
    ensures Step(Session(CommittedAfter(c, done), ScratchAfter(c, done)), x)
            == Session(CommittedAfter(c, done + [x]), ScratchAfter(c, done + [x]))
  {
    assert (done + [x])[..|done|] == done;
  }

  lemma NothingDone(choices: seq<Choice>, e: nat)
    requires e <= |choices|
    ensures [] + choices == choices && [] + choices[..e] == choices[..e]
  {
  }

  lemma {:induction false} RunFollowsReference(c: Contact, done: seq<Choice>, rest: seq<Choice>)
    requires NoExit(done)
    ensures var e := FirstExit(rest);
            Run(Session(CommittedAfter(c, done), ScratchAfter(c, done)), rest)
            == if e < |rest| then Finished(CommittedAfter(c, done + rest[..e]), rest[e + 1..])
               else Waiting(Session(CommittedAfter(c, done + rest), ScratchAfter(c, done + rest)))
    decreases |rest|
  {
    if rest == [] {
      assert done + rest == done;
    } else if rest[0].Exit? {
      assert done + rest[..0] == done;
    } else {
      var x := rest[0];
      var done' := done + [x];
      var e' := FirstExit(rest[1..]);
      ShiftChoice(done, rest, if e' < |rest| - 1 then e' else 0);
      StepFollowsReference(c, done, x);
      assert NoExit(done');
      RunFollowsReference(c, done', rest[1..]);
    }
  }

  /**
   `editContact`: the live and scratch copies start as the contact. When the
   input holds an exit choice, the loop ends there, the choices after it are
   left unread, and the contact left behind is the scratch copy as it stood
   at the last save before the exit, or the original when there was none.
   Without an exit the loop is still waiting for input.
   */
  function EditContact(c: Contact, choices: seq<Choice>): (o: Outcome)
    ensures o.Finished? <==> FirstExit(choices) < |choices|
    ensures o.Finished? ==>
              && o.contact == CommittedAfter(c, choices[..FirstExit(choices)])
              && o.rest == choices[FirstExit(choices) + 1..]
    ensures o.Waiting? ==>
              o.session == Session(CommittedAfter(c, choices), ScratchAfter(c, choices))
  {
    RunFollowsReference(c, [], choices);
    NothingDone(choices, FirstExit(choices));
    Run(Session(c, c), choices)
  }

  /** A field change never touches the live copy: with no save before the exit, the edit is discarded. */
  lemma {:induction false} CommittedWithoutSave(c: Contact, done: seq<Choice>)
    requires forall i :: 0 <= i < |done| ==> !done[i].Save?
    ensures CommittedAfter(c, done) == c
    decreases |done|
  {
    if done != [] {
      CommittedWithoutSave(c, done[..|done| - 1]);
    }
  }

  /** Exiting without a save returns the contact as it was. */
  lemma EditWithoutSaveChangesNothing(c: Contact, choices: seq<Choice>)
    requires forall i :: 0 <= i < FirstExit(choices) ==> !choices[i].Save?
    requires FirstExit(choices) < |choices|
    ensures EditContact(c, choices) == Finished(c, choices[FirstExit(choices) + 1..])
  {
    CommittedWithoutSave(c, choices[..FirstExit(choices)]);
  }

  /** Saving just before the exit keeps every field change made before it. */
  lemma EditSavedBeforeExitKeepsChanges(c: Contact, done: seq<Choice>, rest: seq<Choice>)
    requires NoExit(done)
    ensures EditContact(c, done + [Save, Exit] + rest) == Finished(ScratchAfter(c, done), rest)
  {
    var cs := done + [Save, Exit] + rest;
    assert FirstExit(cs) == |done| + 1 by {
      FirstExitAfter(done, [Save, Exit] + rest);
      assert cs == done + ([Save, Exit] + rest);
    }
    var p := cs[..|done| + 1];
    assert p[..|p| - 1] == done;
    assert p[|p| - 1] == Save;
    assert cs[|done| + 2..] == rest;
  }

  lemma {:induction false} FirstExitAfter(done: seq<Choice>, rest: seq<Choice>)
    requires NoExit(done)
    ensures FirstExit(done + rest) == |done| + FirstExit(rest)
    decreases |done|
  {
    if done != [] {
      assert (done + rest)[1..] == done[1..] + rest;
      FirstExitAfter(done[1..], rest);
    } else {
      assert done + rest == rest;
    }
  }

  /** Field changes applied to a contact with a fresh key leave it with a fresh key. */
  lemma {:induction false} ScratchKeepsKeyFresh(c: Contact, done: seq<Choice>)
    requires KeyFresh(c)
    ensures KeyFresh(ScratchAfter(c, done))
    ensures KeyFresh(CommittedAfter(c, done))
    decreases |done|
  {
    if done != [] {
      ScratchKeepsKeyFresh(c, done[..|done| - 1]);
    }
  }

  /** The contact an edit leaves behind has its key regenerated from its own fields. */
  lemma EditKeepsKeyFresh(c: Contact, choices: seq<Choice>)
    requires KeyFresh(c)
    ensures EditContact(c, choices).Finished? ==> KeyFresh(EditContact(c, choices).contact)
  {
    ScratchKeepsKeyFresh(c, choices[..FirstExit(choices)]);
  }

  // ---------------------------------------------------------------------------
  // The loop as written: both copies share one key buffer
  // ---------------------------------------------------------------------------

  /**
   The session as the program keeps it: the scratch copy is a plain struct
   copy, so it shares the live contact's key buffer. `key` is that buffer;
   the `key` fields of `live` and `scratch` are not consulted.
   */
  datatype SharedSession = SharedSession(live: Contact, scratch: Contact, key: string)

  function StepAsWritten(s: SharedSession, ch: Choice): (r: SharedSession)
    requires !ch.Exit?
    ensures !ch.Save? ==> r.live == s.live
    ensures !ch.Save? ==> r.key == r.scratch.key
    ensures ch.Save? ==> r.key == s.key
  {
    match ch
    case Save => SharedSession(s.scratch, s.scratch, s.key)
    case _ =>
      var edited := Edited(s.scratch, ch);
      SharedSession(s.live, edited, edited.key)
  }

  function RunAsWritten(s: SharedSession, choices: seq<Choice>): Outcome
    decreases |choices|
  {
    if choices == [] then Waiting(Session(s.live.(key := s.key), s.scratch.(key := s.key)))
    else if choices[0].Exit? then Finished(s.live.(key := s.key), choices[1..])
    else RunAsWritten(StepAsWritten(s, choices[0]), choices[1..])
  }

  /**
   The shared session after `done` tracks the reference: the live copy is
   the one last saved, the scratch copy has every field change, and the
   buffer holds the scratch copy's key.
   */
  function SharedAfter(c: Contact, done: seq<Choice>): SharedSession {
    var scratch := ScratchAfter(c, done);
    SharedSession(CommittedAfter(c, done), scratch, scratch.key)
  }

  /** One pass of the written loop moves the shared session one choice along the reference. */
  lemma StepAsWrittenFollowsReference(c: Contact, done: seq<Choice>, x: Choice)
    requires !x.Exit?
    ensures StepAsWritten(SharedAfter(c, done), x) == SharedAfter(c, done + [x])
  {
    assert (done + [x])[..|done|] == done;
  }

  lemma {:induction false} RunAsWrittenFollowsReference(c: Contact, done: seq<Choice>, rest: seq<Choice>)
    requires NoExit(done)
    ensures var e := FirstExit(rest);
            RunAsWritten(SharedAfter(c, done), rest)
            == if e < |rest| then Finished(StaleResult(c, done + rest[..e]), rest[e + 1..])
               else Waiting(Session(StaleResult(c, done + rest), ScratchAfter(c, done + rest)))
    decreases |rest|
  {
    if rest == [] {
      assert done + rest == done;
    } else if rest[0].Exit? {
      assert done + rest[..0] == done;
    } else {
      var x := rest[0];
      var done' := done + [x];
      var e' := FirstExit(rest[1..]);
      ShiftChoice(done, rest, if e' < |rest| - 1 then e' else 0);
      StepAsWrittenFollowsReference(c, done, x);
      assert NoExit(done');
      RunAsWrittenFollowsReference(c, done', rest[1..]);
    }
  }

  /** The live copy after `done` as the written loop reports it: the saved fields with the scratch copy's key. */
  function StaleResult(c: Contact, done: seq<Choice>): (r: Contact)
    ensures SameFields(r, CommittedAfter(c, done))
    ensures r.key == ScratchAfter(c, done).key
  {
    CommittedAfter(c, done).(key := ScratchAfter(c, done).key)
  }

  /**
   `editContact` as written, with the shared key buffer. It ends exactly
   where the corrected loop does and returns the fields saved last, but
   with the key of the scratch copy, edits after the last save included.
   */
  function EditContactAsWritten(c: Contact, choices: seq<Choice>): (o: Outcome)
    ensures o.Finished? <==> FirstExit(choices) < |choices|
    ensures o.Finished? ==>
              && o.contact == StaleResult(c, choices[..FirstExit(choices)])
              && o.rest == choices[FirstExit(choices) + 1..]
  {
    RunAsWrittenFollowsReference(c, [], choices);
    NothingDone(choices, FirstExit(choices));
    assert SharedAfter(c, []) == SharedSession(c, c, c.key);
    RunAsWritten(SharedSession(c, c, c.key), choices)
  }

  /**
   Changing the last name and then leaving without saving keeps the old
   fields but leaves the key generated from the discarded last name.
   */
  lemma DiscardedEditLeavesStaleKey()
    ensures var c := NewContact("Ann", "Lee", Phone(555, 123, 4567));
            var o := EditContactAsWritten(c, [EditLastName("Kim"), Exit]);
            && KeyFresh(c)
            && o.Finished?
            && o.contact.first == c.first && o.contact.last == c.last && o.contact.phone == c.phone
            && !KeyFresh(o.contact)
  {
    var c := NewContact("Ann", "Lee", Phone(555, 123, 4567));
    var o := EditContactAsWritten(c, [EditLastName("Kim"), Exit]);
    var edited := SetLastName(c, "Kim");
    assert o.contact == c.(key := edited.key);
    assert edited.key[..3] == "Kim";
    assert GenKey(c.first, c.last, c.phone)[..3] == "Lee";
  }

  /** The written loop and the corrected one agree on every field; they differ at most in the key. */
  lemma {:induction false} AsWrittenAgreesOnFields(s: SharedSession, t: Session, choices: seq<Choice>)
    requires SameFields(s.live, t.live) && SameFields(s.scratch, t.scratch)
    ensures var a, b := RunAsWritten(s, choices), Run(t, choices);
            && a.Finished? == b.Finished?
            && (a.Finished? ==> SameFields(a.contact, b.contact) && a.rest == b.rest)
    decreases |choices|
  {
    if choices != [] && !choices[0].Exit? {
      AsWrittenAgreesOnFields(StepAsWritten(s, choices[0]), Step(t, choices[0]), choices[1..]);
    }
  }

  predicate SameFields(a: Contact, b: Contact) {
    a.first == b.first && a.last == b.last && a.phone == b.phone
  }
}
