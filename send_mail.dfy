/**
 * The compose view (`SendMailViewModel`): the recipient text is split and
 * validated into the committed address list, the "can send" flag follows the
 * address list and the body, a draft opened for a reply or a forward gets its
 * subject and body from the original message, and sending is refused unless
 * the flag is set and every committed address is valid.
 *
 * The mailbox service is not modelled: whether a client is available and the
 * people list it returns are parameters, and what would be sent is recorded in
 * `outbox` instead. Navigating back is recorded by counting.
 */
module SendMail {
  import opened Optional
  import opened Text
  import opened EmailGrammar
  import opened EmailValidity

  /** The message a draft is opened from. */
  datatype MailData = MailData(id: string, subject: string, body: string, sender: string)

  /** How the draft was opened; any action other than reply or forward is `OtherAction`. */
  datatype MessageActionFlag = Reply | Forward | OtherAction

  /** A name and an address, as offered in the suggestion list. */
  datatype EmailAddress = EmailAddress(address: string, name: string)

  /** A scored address of a person; the address may be null. */
  datatype ScoredEmailAddress = ScoredEmailAddress(address: Option<string>)

  /** A person of the recent-people list; the list of scored addresses may be null. */
  datatype Person = Person(displayName: string, scoredEmailAddresses: Option<seq<ScoredEmailAddress>>)

  /** A To: recipient of an outgoing message. */
  datatype Recipient = Recipient(address: string)

  /** A plain-text message as handed to the mailbox service. */
  datatype Message = Message(subject: string, body: string, toRecipients: seq<Recipient>)

  /** What was handed to the mailbox service: a new message, or a reply to the message `id`. */
  datatype Outgoing = SentMail(message: Message) | ReplyTo(id: string, message: Message)

  // ---------------------------------------------------------------------------
  // Subjects and bodies of replies and forwards

  const ReplyPrefix: string := "Re: "
  const ForwardPrefix: string := "Fwd: "
  const ForwardHeader: string := "Forwarded message:\n\n"

  /** A reply's subject: prefixed with `Re: ` unless it already starts with it. */
  function ReplySubject(subject: string): string {
    if StartsWith(subject, ReplyPrefix) then subject else ReplyPrefix + subject
  }

  function ForwardSubject(subject: string): string {
    ForwardPrefix + subject
  }

  function ForwardBody(body: string): string {
    ForwardHeader + body
  }

  /**
   * A reply's subject starts with `Re: ` and ends with the original subject,
   * and replying to a reply adds no second prefix.
   */
  lemma ReplySubjectPrefixedOnce(subject: string)
    ensures StartsWith(ReplySubject(subject), ReplyPrefix)
    ensures var r := ReplySubject(subject); |subject| <= |r| && r[|r| - |subject|..] == subject
    ensures ReplySubject(ReplySubject(subject)) == ReplySubject(subject)
  {
    assert (ReplyPrefix + subject)[..|ReplyPrefix|] == ReplyPrefix;
    assert (ReplyPrefix + subject)[|ReplyPrefix|..] == subject;
  }

  /** A subject that already carries the prefix is left as it is, and only then. */
  lemma ReplySubjectUnchangedIffPrefixed(subject: string)
    ensures ReplySubject(subject) == subject <==> StartsWith(subject, ReplyPrefix)
  {
    if !StartsWith(subject, ReplyPrefix) {
      assert |ReplySubject(subject)| == |subject| + 4;
    }
  }

  /**
   * A forward's subject and body carry the original after a fixed prefix, so
   * the original can be read back; forwarding is not idempotent: a forwarded
   * draft sent with `ForwardMail` is prefixed twice.
   */
  lemma ForwardRecoversOriginal(subject: string, body: string)
    ensures StartsWith(ForwardSubject(subject), ForwardPrefix)
    ensures ForwardSubject(subject)[|ForwardPrefix|..] == subject
    ensures StartsWith(ForwardBody(body), ForwardHeader)
    ensures ForwardBody(body)[|ForwardHeader|..] == body
    ensures ForwardSubject(ForwardSubject(subject)) != ForwardSubject(subject)
    ensures ForwardSubject(ForwardSubject(subject)) == "Fwd: Fwd: " + subject
  {
    assert |ForwardSubject(ForwardSubject(subject))| == |subject| + 10;
    assert (ForwardPrefix + subject)[..|ForwardPrefix|] == ForwardPrefix;
    assert (ForwardHeader + body)[..|ForwardHeader|] == ForwardHeader;
  }

  // ---------------------------------------------------------------------------
  // Recipients

  predicate AllValidEmails(addresses: seq<string>) {
    forall i :: 0 <= i < |addresses| ==> IsValidEmail(Some(addresses[i]))
  }

  /**
   * The addresses a recipient text commits: its trimmed entries when all of
   * them are valid, and none otherwise.
   */
  function Committed(value: string): Option<seq<string>> {
    var entries := RecipientEntries(value);
    if AllValidEmails(entries) then Some(entries) else None
  }

  /** The recipient text split on `;` with every entry trimmed. */
  function RecipientEntries(value: string): seq<string> {
    SplitTrimmed(value, ';')
  }

  /** The To: list built from the committed addresses, one recipient per address. */
  function RecipientList(addresses: seq<string>): (r: seq<Recipient>)
    ensures |r| == |addresses|
    ensures forall i :: 0 <= i < |r| ==> r[i].address == addresses[i]
  {
    seq(|addresses|, i requires 0 <= i < |addresses| => Recipient(addresses[i]))
  }

  /** A recipient text without a separator is a single entry: the trimmed text. */
  lemma {:induction false} SingleEntry(value: string)
    requires ';' !in value
    ensures RecipientEntries(value) == [Trim(value)]
  {
    SplitOnPiece(value, ';');
  }

  /** A blank segment anywhere in the recipient text makes the whole text invalid. */
  lemma {:induction false} BlankSegmentRejected(value: string, k: int)
    requires 0 <= k < |SplitOn(value, ';')| && IsNullOrWhiteSpace(Some(SplitOn(value, ';')[k]))
    ensures !AllValidEmails(RecipientEntries(value))
  {
    var part := SplitOn(value, ';')[k];
    BlankIffTrimsToEmpty(part);
    assert RecipientEntries(value)[k] == [];
    assert !IsValidEmail(Some(RecipientEntries(value)[k]));
  }

  /** An empty recipient text, and one ending with `;`, commit no address. */
  lemma EmptyOrTrailingSeparatorRejected(value: string)
    requires value == [] || EndsWithChar(value, ';')
    ensures !AllValidEmails(RecipientEntries(value))
  {
    var parts := SplitOn(value, ';');
    if value == [] {
      BlankSegmentRejected(value, 0);
    } else {
      SplitOnTrailingSeparator(value, ';');
      BlankSegmentRejected(value, |parts| - 1);
    }
  }

  /** A single valid address is committed as itself. */
  lemma CommittedSingle()
    ensures Committed("a@b.com") == Some(["a@b.com"])
  {
    SingleEntry("a@b.com");
    TrimUnpadded("a@b.com");
    ScanTrimmed();
    IsValidEmailIffRecognised(Some("a@b.com"));
  }

  /** A lone separator commits nothing. */
  lemma CommittedBad()
    ensures Committed(";") == None
  {
    EmptyOrTrailingSeparatorRejected(";");
  }

  /**
   * A recipient text that is committed has one address per `;`-separated
   * segment, none empty and none containing `;`, each matching the address
   * pattern with exactly one `@`; the text itself is neither empty nor ends
   * with `;`.
   */
  lemma CommittedEntriesShape(value: string)
    requires AllValidEmails(RecipientEntries(value))
    ensures var e := RecipientEntries(value);
            |e| == multiset(value)[';'] + 1
            && value != [] && !EndsWithChar(value, ';')
            && forall i :: 0 <= i < |e| ==>
                 MatchesEmailPattern(e[i]) && multiset(e[i])['@'] == 1 && ';' !in e[i]
  {
    var e := RecipientEntries(value);
    SplitOnCount(value, ';');
    SplitOnPiecesFree(value, ';');
    if value == [] || EndsWithChar(value, ';') {
      EmptyOrTrailingSeparatorRejected(value);
    }
    forall i | 0 <= i < |e|
      ensures MatchesEmailPattern(e[i]) && multiset(e[i])['@'] == 1 && ';' !in e[i]
    {
      IsValidEmailIffPattern(Some(e[i]));
      TrimIdempotent(SplitOn(value, ';')[i]);
      PatternShape(e[i]);
    }
  }

  /** Trimming an entry again, as the recipient handler does, changes nothing. */
  lemma EntriesAreTrimmed(value: string)
    ensures var e := RecipientEntries(value); forall i :: 0 <= i < |e| ==> Trim(e[i]) == e[i]
  {
    var parts := SplitOn(value, ';');
    forall i | 0 <= i < |parts| {
      TrimIdempotent(parts[i]);
    }
  }

  /**
   * The recipient handler's work on the text: split and trim it, check every
   * entry, and on success trim every entry again into the new address list.
   */
  method CommitRecipients(value: string) returns (committed: Option<seq<string>>)
    ensures committed == Committed(value)
  {
    var entries := RecipientEntries(value);
    var ok := CheckAddresses(entries);
    if !ok {
      return None;
    }
    EntriesAreTrimmed(value);
    var trimmed := TrimAll(entries);
    assert trimmed == entries;
    return Some(trimmed);
  }

  /** Trims each entry in turn; entries that are already trimmed come back as they were. */
  method TrimAll(entries: seq<string>) returns (trimmed: seq<string>)
    ensures |trimmed| == |entries|
    ensures forall i :: 0 <= i < |entries| ==> trimmed[i] == Trim(entries[i])
  {
    trimmed := [];
    var i := 0;
    while i < |entries|
      invariant 0 <= i <= |entries|
      invariant |trimmed| == i
      invariant forall j :: 0 <= j < i ==> trimmed[j] == Trim(entries[j])
    {
      trimmed := trimmed + [Trim(entries[i])];
      i := i + 1;
    }
  }

  /** The check in front of every send: each address in turn, stopping at the first invalid one. */
  method CheckAddresses(addresses: seq<string>) returns (ok: bool)
    ensures ok <==> AllValidEmails(addresses)
  {
    var i := 0;
    while i < |addresses|
      invariant 0 <= i <= |addresses|
      invariant forall j :: 0 <= j < i ==> IsValidEmail(Some(addresses[j]))
    {
      if !IsValidEmail(Some(addresses[i])) {
        return false;
      }
      i := i + 1;
    }
    return true;
  }

  /** Builds the To: list by appending one recipient per committed address. */
  method BuildRecipientList(addresses: seq<string>) returns (list: seq<Recipient>)
    ensures list == RecipientList(addresses)
  {
    list := [];
    var i := 0;
    while i < |addresses|
      invariant 0 <= i <= |addresses|
      invariant list == RecipientList(addresses[..i])
    {
      list := list + [Recipient(addresses[i])];
      i := i + 1;
    }
    assert addresses[..i] == addresses;
  }

  /**
   * A person is offered as a suggestion when its list of scored addresses is
   * present and non-empty and the first address is not blank.
   */
  predicate Suggestible(p: Person) {
    p.scoredEmailAddresses.Some? && |p.scoredEmailAddresses.value| > 0
    && !IsNullOrWhiteSpace(p.scoredEmailAddresses.value[0].address)
  }

  function SuggestionOf(p: Person): EmailAddress
    requires Suggestible(p)
  {
    EmailAddress(p.scoredEmailAddresses.value[0].address.value, p.displayName)
  }

  /** The suggestions offered for a list of people, in the people's order. */
  function Suggestions(people: seq<Person>): (r: seq<EmailAddress>)
    ensures |r| <= |people|
    ensures forall i :: 0 <= i < |r| ==> !IsNullOrWhiteSpace(Some(r[i].address))
  {
    if people == [] then []
    else
      var last := people[|people| - 1];
      Suggestions(people[..|people| - 1]) + (if Suggestible(last) then [SuggestionOf(last)] else [])
  }

  /** Every suggestible person is offered, with the first of its addresses and its name. */
  lemma {:induction false} SuggestionsKeepSuggestible(people: seq<Person>, k: int)
    requires 0 <= k < |people| && Suggestible(people[k])
    ensures SuggestionOf(people[k]) in Suggestions(people)
  {
    if k < |people| - 1 {
      SuggestionsKeepSuggestible(people[..|people| - 1], k);
    }
  }

  /** Every suggestion is the first address and the name of some suggestible person. */
  lemma {:induction false} SuggestionsFromSuggestible(people: seq<Person>, j: int)
    requires 0 <= j < |Suggestions(people)|
    ensures exists k :: 0 <= k < |people| && Suggestible(people[k]) && Suggestions(people)[j] == SuggestionOf(people[k])
  {
    var n := |people| - 1;
    var front := Suggestions(people[..n]);
    if j < |front| {
      SuggestionsFromSuggestible(people[..n], j);
      var k :| 0 <= k < n && Suggestible(people[..n][k]) && front[j] == SuggestionOf(people[..n][k]);
      assert people[..n][k] == people[k];
    } else {
      assert Suggestible(people[n]) && Suggestions(people)[j] == SuggestionOf(people[n]);
    }
  }

  // ---------------------------------------------------------------------------
  // The view-model

  class SendMailViewModel {
    var newSubject: string
    var newBody: string
    var recipient: string
    var recipientTextBox: string
    var messageReplyingTo: Option<MailData>
    /** The committed addresses, in order. */
    var emailAddresses: seq<string>
    var suggestedRecipients: seq<EmailAddress>
    var canSend: bool
    /** What was handed to the mailbox service, oldest first. */
    var outbox: seq<Outgoing>
    /** How often the view navigated back. */
    var backNavigations: nat

    /**
     * The flag is only ever set while the body is non-empty. It does not
     * imply a non-empty address list: an invalid recipient text empties the
     * list and leaves the flag as it was.
     */
    ghost predicate Valid()
      reads this
    {
      canSend ==> newBody != ""
    }

    constructor ()
      ensures Valid()
      ensures newSubject == "" && newBody == "" && recipient == "" && recipientTextBox == ""
      ensures messageReplyingTo == None && emailAddresses == [] && suggestedRecipients == []
      ensures !canSend && outbox == [] && backNavigations == 0
    {
      newSubject, newBody, recipient, recipientTextBox := "", "", "", "";
      messageReplyingTo := None;
      emailAddresses, suggestedRecipients := [], [];
      canSend := false;
      outbox, backNavigations := [], 0;
    }

    /**
     * A clicked suggestion is committed as it is, untrimmed, when it is a
     * valid address, and the recipient box is cleared; the flag is not
     * recomputed. Duplicates are kept.
     */
    method TryAddThisClickedItem(clicked: string)
      modifies this`recipientTextBox, this`emailAddresses
      ensures IsValidEmail(Some(clicked)) ==>
                recipientTextBox == "" && emailAddresses == old(emailAddresses) + [clicked]
      ensures !IsValidEmail(Some(clicked)) ==>
                recipientTextBox == old(recipientTextBox) && emailAddresses == old(emailAddresses)
    {
      if !IsValidEmail(Some(clicked)) {
        return;
      }
      recipientTextBox := "";
      emailAddresses := emailAddresses + [clicked];
    }

    /**
     * The recipient text changed: the address list is emptied, and refilled
     * with the trimmed entries only when every entry is valid, in which case
     * the flag is recomputed. Otherwise the flag keeps its old value.
     */
    method OnRecipientChanged(value: string)
      modifies this`emailAddresses, this`canSend
      ensures match Committed(value)
              case Some(addresses) =>
                emailAddresses == addresses && canSend == (|addresses| > 0 && newBody != "")
              case None =>
                emailAddresses == [] && canSend == old(canSend)
    {
      var committed := CommitRecipients(value);
      match committed
      case None =>
        emailAddresses := [];
      case Some(addresses) =>
        emailAddresses := addresses;
        canSend := |addresses| > 0 && newBody != "";
    }

    /** Setting the recipient text runs the handler only when the text changes. */
    method SetRecipient(value: string)
      requires Valid()
      modifies this`recipient, this`emailAddresses, this`canSend
      ensures Valid() && recipient == value
      ensures value != old(recipient) ==>
                match Committed(value)
                case Some(addresses) =>
                  emailAddresses == addresses && canSend == (|addresses| > 0 && newBody != "")
                case None =>
                  emailAddresses == [] && canSend == old(canSend)
      ensures value == old(recipient) ==>
                emailAddresses == old(emailAddresses) && canSend == old(canSend)
    {
      if value != recipient {
        recipient := value;
        OnRecipientChanged(value);
      }
    }

    /** The body changed: the flag becomes "some address is committed and the body is non-empty". */
    method OnNewBodyChanged(value: string)
      modifies this`canSend
      ensures canSend == (|emailAddresses| > 0 && value != "")
    {
      canSend := |emailAddresses| > 0 && value != "";
    }

    /** Setting the body runs the handler only when the body changes. */
    method SetNewBody(value: string)
      requires Valid()
      modifies this`newBody, this`canSend
      ensures Valid() && newBody == value
      ensures value != old(newBody) ==> canSend == (|emailAddresses| > 0 && value != "")
      ensures value == old(newBody) ==> canSend == old(canSend)
    {
      if value != newBody {
        newBody := value;
        OnNewBodyChanged(value);
      }
    }

    method GoBack()
      modifies this`backNavigations
      ensures backNavigations == old(backNavigations) + 1
    {
      backNavigations := backNavigations + 1;
    }

    /** The draft as it would be sent: the current subject and body, one recipient per address. */
    function Draft(subject: string): Message
      reads this
    {
      Message(subject, newBody, RecipientList(emailAddresses))
    }

    /**
     * Sends the draft, as a reply when it was opened as one, and navigates
     * back; sends nothing and stays when the flag is clear, when some
     * committed address is invalid, or when no client is available.
     */
    method SendMail(hasClient: bool)
      modifies this`outbox, this`backNavigations
      ensures var sends := canSend && AllValidEmails(emailAddresses) && hasClient;
              (sends ==> outbox == old(outbox) + [if messageReplyingTo.Some?
                                                   then ReplyTo(messageReplyingTo.value.id, Draft(newSubject))
                                                   else SentMail(Draft(newSubject))]
                         && backNavigations == old(backNavigations) + 1)
              && (!sends ==> outbox == old(outbox) && backNavigations == old(backNavigations))
    {
      if !canSend {
        return;
      }
      var ok := CheckAddresses(emailAddresses);
      if !ok {
        return;
      }
      var recipientList := BuildRecipientList(emailAddresses);
      if !hasClient {
        return;
      }
      var message := Message(newSubject, newBody, recipientList);
      if messageReplyingTo.Some? {
        outbox := outbox + [ReplyTo(messageReplyingTo.value.id, message)];
      } else {
        outbox := outbox + [SentMail(message)];
      }
      GoBack();
    }

    /**
     * Sends the draft as a new message whose subject is the current subject
     * prefixed with `Fwd: ` (again, for a draft opened as a forward), under
     * the same guards as `SendMail`.
     */
    method ForwardMail(hasClient: bool)
      modifies this`outbox, this`backNavigations
      ensures var sends := canSend && AllValidEmails(emailAddresses) && hasClient;
              (sends ==> outbox == old(outbox) + [SentMail(Draft(ForwardSubject(newSubject)))]
                         && backNavigations == old(backNavigations) + 1)
              && (!sends ==> outbox == old(outbox) && backNavigations == old(backNavigations))
    {
      if !canSend {
        return;
      }
      var ok := CheckAddresses(emailAddresses);
      if !ok {
        return;
      }
      var recipientList := BuildRecipientList(emailAddresses);
      if !hasClient {
        return;
      }
      var message := Message(ForwardSubject(newSubject), newBody, recipientList);
      outbox := outbox + [SentMail(message)];
      GoBack();
    }

    /**
     * Refills the suggestions from the recent-people list; `people` is `None`
     * when no client is available, and then nothing changes.
     */
    method LoadSuggestedEmails(people: Option<seq<Person>>)
      modifies this`suggestedRecipients
      ensures people.None? ==> suggestedRecipients == old(suggestedRecipients)
      ensures people.Some? ==> suggestedRecipients == Suggestions(people.value)
    {
      if people.None? {
        return;
      }
      var ps := people.value;
      suggestedRecipients := [];
      var i := 0;
      while i < |ps|
        invariant 0 <= i <= |ps|
        invariant suggestedRecipients == Suggestions(ps[..i])
      {
        assert ps[..i + 1][..i] == ps[..i];
        if Suggestible(ps[i]) {
          suggestedRecipients := suggestedRecipients + [SuggestionOf(ps[i])];
        }
        i := i + 1;
      }
      assert ps[..i] == ps;
    }

    /**
     * Opening the compose view: the suggestions are loaded, then a reply
     * gets the `Re: ` subject, the original sender appended to the addresses
     * (the flag is not recomputed) and the original remembered; a forward gets
     * the `Fwd: ` subject and the quoted body, through the body's setter.
     */
    method OnNavigatedTo(parameter: Option<(MailData, MessageActionFlag)>, people: Option<seq<Person>>)
      requires Valid()
      modifies this
      ensures Valid()
      ensures people.None? ==> suggestedRecipients == old(suggestedRecipients)
      ensures people.Some? ==> suggestedRecipients == Suggestions(people.value)
      ensures recipient == old(recipient) && recipientTextBox == old(recipientTextBox)
      ensures outbox == old(outbox) && backNavigations == old(backNavigations)
      ensures parameter.Some? && parameter.value.1 == Reply ==>
                var mail := parameter.value.0;
                newSubject == ReplySubject(mail.subject) && newBody == old(newBody)
                && emailAddresses == old(emailAddresses) + [mail.sender]
                && messageReplyingTo == Some(mail) && canSend == old(canSend)
      ensures parameter.Some? && parameter.value.1 == Forward ==>
                var mail := parameter.value.0;
                newSubject == ForwardSubject(mail.subject) && newBody == ForwardBody(mail.body)
                && emailAddresses == old(emailAddresses) && messageReplyingTo == old(messageReplyingTo)
                && (ForwardBody(mail.body) != old(newBody) ==> canSend == (|emailAddresses| > 0))
                && (ForwardBody(mail.body) == old(newBody) ==> canSend == old(canSend))
      ensures parameter.None? || parameter.value.1 == OtherAction ==>
                newSubject == old(newSubject) && newBody == old(newBody)
                && emailAddresses == old(emailAddresses) && messageReplyingTo == old(messageReplyingTo)
                && canSend == old(canSend)
    {
      LoadSuggestedEmails(people);
      if parameter.None? {
        return;
      }
      var (mail, action) := parameter.value;
      match action
      case Reply =>
        newSubject := ReplySubject(mail.subject);
        emailAddresses := emailAddresses + [mail.sender];
        messageReplyingTo := Some(mail);
      case Forward =>
        newSubject := ForwardSubject(mail.subject);
        SetNewBody(ForwardBody(mail.body));
      case OtherAction =>
    }
  }

  /**
   * A stale flag: a valid address enables sending, and an invalid text then
   * empties the address list but leaves the flag set.
   */
  method StaleFlagDraft() returns (vm: SendMailViewModel)
    ensures fresh(vm) && vm.Valid()
    ensures vm.canSend && vm.emailAddresses == [] && vm.newBody == "x"
    ensures vm.messageReplyingTo == None && vm.outbox == []
  {
    vm := new SendMailViewModel();
    vm.SetNewBody("x");
    CommittedSingle();
    vm.SetRecipient("a@b.com");
    CommittedBad();
    vm.SetRecipient(";");
  }

  /** The draft with the stale flag goes out with an empty To: list. */
  method StaleFlagSendsToNobody() returns (sent: Outgoing)
    ensures sent.SentMail? && sent.message.body == "x" && sent.message.toRecipients == []
  {
    var vm := StaleFlagDraft();
    assert AllValidEmails(vm.emailAddresses);
    vm.SendMail(true);
    sent := vm.outbox[0];
  }
}
