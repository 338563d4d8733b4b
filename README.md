# miniLook view-models in Dafny

miniLook is a small mail client. This project models the two stateful parts at its core.

**The compose view (`SendMailViewModel`).** Its parts are:
- the address check `IsValidEmail` and its regular expression;
- the commit of the `;`-separated recipient text into the address list;
- the `CanSend` flag;
- the subject and body rules for replies and forwards;
- the guards in front of sending and forwarding.

**The mailbox list view (`ListDetailsViewModel`).** Its parts are:
- the cached message and event lists;
- the unread count, recounted after every change to the message list;
- the timer poll, which inserts each new message at the head;
- the sync cursor;
- the one-shot initial load started by the sign-in handler;
- the week-start arithmetic for the calendar window.

The mailbox service is replaced by parameters and records:
- whether a provider or client exists is a parameter;
- what each request returns (people, inbox pages, poll batches, calendar pages) is a parameter;
- sends are recorded in `outbox`;
- navigating back is counted in `backNavigations`.

Each event handler runs as one atomic step.

Modules:

- `Optional`: `Option`, the model's stand-in for a nullable reference.
- `Text`: the .NET string operations used, each with its properties proved as lemmas:
  - `string.IsNullOrWhiteSpace`;
  - `Trim`, `TrimStart` and `TrimEnd`;
  - ordinal `StartsWith` and `EndsWith`;
  - `Split(';')` as `SplitOn`, inverted by `JoinWith`;
  - `Split(';', TrimEntries)` as `SplitTrimmed`, which trims each piece of `SplitOn`.
- `EmailGrammar`: the address pattern in two forms.
  - `MatchesEmailPattern` reads `^([\w.\-]+)@([\w\-]+)((\.(\w){2,3})+)$` as written.
  - `Recognises` is a hand-rolled scanner (`ScanState`, `Step`, `Run`).
  - `RecognisesIffPattern` proves the two agree on every string.
- `EmailValidity`: what `IsValidEmail` accepts, the shape of accepted addresses, and worked examples.
- `SendMail`: the class `SendMailViewModel` and the pure rules around it.
- `Mailbox`: the class `ListDetailsViewModel`, plus the unread count, reversal and week-start functions.

Behaviour of the code that the contracts pin down rather than correct:

- An invalid recipient text empties the address list but leaves `CanSend` as it was. A draft can then be sent to an empty recipient list: `SendMail.StaleFlagSendsToNobody` exhibits it.
- Clicked suggestions and the reply sender are appended without recomputing `CanSend`. Duplicates are kept.
- `ForwardMail` prefixes `Fwd: ` again, so a draft opened as a forward is sent as `Fwd: Fwd: …`.
- A poll batch ends up reversed in front of the cached list.
- `Refresh` clears both lists but never resets the one-shot load flag.

Behaviour worth noting:

- **Trailing dot inside the address.** `a.@b.com` is accepted. Only a trailing `.` of the whole trimmed string is rejected, and the local part may end in `.`. See `EmailValidity.ExampleDotBeforeAt`.
- **Initial load.** The initial load appends the inbox page to the cached list. Only `Refresh` and navigation clear the list first.
- **Empty poll.** An empty poll returns before the cursor is touched.
- **The cursor's new value.** The cursor is set to the current time (a parameter), not to the newest message's time.

## Model

| member | source | states |
|---|---|---|
| Text.BlankIffTrimsToEmpty | miniLook/ViewModels/SendMailViewModel.cs:85-88 | a string is null-or-white-space exactly when trimming it leaves the empty string |
| Text.Trim | miniLook/ViewModels/SendMailViewModel.cs:88 | `String.Trim()` as `TrimEnd` after `TrimStart`; its properties are stated by `Text.TrimSpec`, `Text.TrimIdempotent` and `Text.TrimUnpadded` |
| Text.TrimStartSpec | miniLook/ViewModels/SendMailViewModel.cs:88 | `TrimStart` drops only white space, and what it leaves is a suffix that does not start with white space |
| Text.TrimEndSpec | miniLook/ViewModels/SendMailViewModel.cs:88 | `TrimEnd` drops only white space, and what it leaves is a prefix that does not end with white space |
| Text.TrimSpec | miniLook/ViewModels/SendMailViewModel.cs:88 | `Trim` leaves the middle of the string between a white-space prefix and a white-space suffix; neither end of the result is white space |
| Text.TrimIdempotent | miniLook/ViewModels/SendMailViewModel.cs:73 | trimming an already trimmed entry again changes nothing |
| Text.TrimUnpadded | miniLook/ViewModels/SendMailViewModel.cs:88 | a string with non-white-space ends is its own trim |
| Text.SplitOn | miniLook/ViewModels/SendMailViewModel.cs:65 | splitting always yields at least one piece |
| Text.SplitOnCount | miniLook/ViewModels/SendMailViewModel.cs:65 | there is one more piece than there are separators, so empty pieces are kept |
| Text.SplitOnPiecesFree | miniLook/ViewModels/SendMailViewModel.cs:65 | no piece contains the separator |
| Text.SplitOnJoin | miniLook/ViewModels/SendMailViewModel.cs:65 | joining the pieces with the separator gives the original text back |
| Text.SplitJoinRoundTrip | miniLook/ViewModels/SendMailViewModel.cs:65 | splitting the join of separator-free pieces gives the pieces back, so split and join are inverse |
| Text.SplitOnPiece | miniLook/ViewModels/SendMailViewModel.cs:65 | a text without a separator is a single piece |
| Text.SplitOnAfterPiece | miniLook/ViewModels/SendMailViewModel.cs:65 | a piece followed by a separator splits off in front of the rest's pieces |
| Text.SplitTrimmed | miniLook/ViewModels/SendMailViewModel.cs:65 | `Split(';', TrimEntries)`: the pieces of `SplitOn`, each trimmed and none dropped; `SendMail.EntriesAreTrimmed` and `SendMail.CommittedEntriesShape` state what the commit gets from it |
| Text.SplitOnTrailingSeparator | miniLook/ViewModels/SendMailViewModel.cs:65 | a text ending with the separator has an empty last piece |
| EmailGrammar.FailIsFinal | miniLook/ViewModels/SendMailViewModel.cs:228 | once the scanner rejects, no further input makes it accept |
| EmailGrammar.SuffixStates | miniLook/ViewModels/SendMailViewModel.cs:228 | the scanner's label states accept exactly the remainders that complete the `(\.\w{2,3})+` group |
| EmailGrammar.FirstCharacters | miniLook/ViewModels/SendMailViewModel.cs:228 | each part of the pattern starts with the character its group requires |
| EmailGrammar.DomainState | miniLook/ViewModels/SendMailViewModel.cs:228 | inside the first domain label, the scanner accepts exactly the rest of a host or a run of dotted labels |
| EmailGrammar.AtSignState | miniLook/ViewModels/SendMailViewModel.cs:228 | right after `@`, the scanner accepts exactly the strings matching `[\w\-]+(\.\w{2,3})+` |
| EmailGrammar.LocalState | miniLook/ViewModels/SendMailViewModel.cs:228 | inside the local part, the scanner accepts exactly the rest of a local part followed by `@` and a host |
| EmailGrammar.RecognisesIffPattern | miniLook/ViewModels/SendMailViewModel.cs:228 | the scanner accepts a string if and only if the string matches the regular expression |
| EmailGrammar.HostPartHasNoAt | miniLook/ViewModels/SendMailViewModel.cs:228 | the part after the `@` contains no `@` |
| EmailValidity.PatternEndsInWordChar | miniLook/ViewModels/SendMailViewModel.cs:228 | a matching string ends with a word character, so the pattern alone already rejects a trailing `.` |
| EmailGrammar.IsValidEmail | miniLook/ViewModels/SendMailViewModel.cs:83-95 | null or blank input and a trimmed text ending in `.` are rejected, otherwise the trimmed text must be recognised; `EmailValidity.IsValidEmailIffPattern` states exactly what it accepts |
| EmailValidity.IsValidEmailIffPattern | miniLook/ViewModels/SendMailViewModel.cs:83-95 | `IsValidEmail` accepts exactly the non-null strings whose trimmed form matches the pattern |
| EmailValidity.IsValidEmailIffRecognised | miniLook/ViewModels/SendMailViewModel.cs:83-95 | `IsValidEmail` accepts exactly the non-null strings whose trimmed form the scanner accepts |
| EmailValidity.RejectsBlankAndTrailingDot | miniLook/ViewModels/SendMailViewModel.cs:85-91 | null input, white-space-only input or empty input, and input whose trimmed form ends with `.`, are all rejected |
| EmailValidity.PatternShape | miniLook/ViewModels/SendMailViewModel.cs:228 | a matching string has exactly one `@`, and every other character is a word character, `.` or `-` |
| EmailValidity.AcceptedAddressShape | miniLook/ViewModels/SendMailViewModel.cs:83-95 | the trimmed form of an accepted address has exactly one `@`, and otherwise only word characters, `.` and `-` |
| EmailValidity.RunAppend | miniLook/ViewModels/SendMailViewModel.cs:228 | scanning `x + y` is scanning `x` and then continuing with `y` |
| EmailValidity.ExampleValid | miniLook/ViewModels/SendMailViewModel.cs:83-95 | `a@b.co.uk` is accepted |
| EmailValidity.ExampleTrimmed | miniLook/ViewModels/SendMailViewModel.cs:83-95 | `  a@b.com ` is accepted after trimming |
| EmailValidity.ExampleDotBeforeAt | miniLook/ViewModels/SendMailViewModel.cs:83-95 | `a.@b.com` is accepted |
| EmailValidity.ExampleLongLabel | miniLook/ViewModels/SendMailViewModel.cs:83-95 | `a@mail.example.com` is rejected, because a label after the first dot has more than three characters |
| EmailValidity.ExampleLongTld | miniLook/ViewModels/SendMailViewModel.cs:83-95 | `a@b.comm` is rejected, because the last label has four characters |
| EmailValidity.ExampleTwoAts | miniLook/ViewModels/SendMailViewModel.cs:83-95 | `a@b@c.com` is rejected |
| SendMail.ReplySubject | miniLook/ViewModels/SendMailViewModel.cs:181-184 | the reply subject; `SendMail.ReplySubjectPrefixedOnce` and `SendMail.ReplySubjectUnchangedIffPrefixed` state that `Re: ` is added exactly when missing |
| SendMail.ForwardSubject | miniLook/ViewModels/SendMailViewModel.cs:191 | the forward subject; `SendMail.ForwardRecoversOriginal` states that it is the original behind a fixed `Fwd: ` prefix |
| SendMail.ForwardBody | miniLook/ViewModels/SendMailViewModel.cs:192 | the forward body; `SendMail.ForwardRecoversOriginal` states that it is the original behind a fixed header |
| SendMail.ReplySubjectPrefixedOnce | miniLook/ViewModels/SendMailViewModel.cs:181-184 | a reply subject starts with `Re: ` and ends with the original subject; replying to a reply adds no second prefix |
| SendMail.ReplySubjectUnchangedIffPrefixed | miniLook/ViewModels/SendMailViewModel.cs:181-184 | the subject is left unchanged if and only if it already starts with `Re: ` |
| SendMail.ForwardRecoversOriginal | miniLook/ViewModels/SendMailViewModel.cs:191-192 | the forward subject and body carry the original after fixed prefixes, which can be stripped to give it back; forwarding a forward prefixes `Fwd: Fwd: ` |
| SendMail.Committed | miniLook/ViewModels/SendMailViewModel.cs:65-73 | the trimmed entries when every entry is valid, none otherwise; `SendMail.CommittedEntriesShape`, `SendMail.BlankSegmentRejected` and `SendMail.EmptyOrTrailingSeparatorRejected` state its properties |
| SendMail.RecipientList | miniLook/ViewModels/SendMailViewModel.cs:110-113 | the To: list has one recipient per committed address, in the same order |
| SendMail.SingleEntry | miniLook/ViewModels/SendMailViewModel.cs:65 | a recipient text without `;` is one entry, its trimmed self |
| SendMail.BlankSegmentRejected | miniLook/ViewModels/SendMailViewModel.cs:65-70 | if any segment of the recipient text is blank, not every entry is valid |
| SendMail.EmptyOrTrailingSeparatorRejected | miniLook/ViewModels/SendMailViewModel.cs:65-70 | an empty recipient text, or one ending in `;`, has an invalid entry |
| SendMail.CommittedSingle | miniLook/ViewModels/SendMailViewModel.cs:65-73 | the text `a@b.com` commits the one address `a@b.com` |
| SendMail.CommittedBad | miniLook/ViewModels/SendMailViewModel.cs:65-73 | the text `;` commits nothing |
| SendMail.CommittedEntriesShape | miniLook/ViewModels/SendMailViewModel.cs:65-73 | a committed text has one address per segment (so at least one) in input order with no de-duplication; each address contains no `;`, matches the pattern and has one `@`; the text is neither empty nor ends in `;` |
| SendMail.EntriesAreTrimmed | miniLook/ViewModels/SendMailViewModel.cs:72-73 | the second trim applied to each entry before adding it changes nothing |
| SendMail.CommitRecipients | miniLook/ViewModels/SendMailViewModel.cs:65-73 | gives the trimmed entries when every entry is valid, and nothing otherwise |
| SendMail.TrimAll | miniLook/ViewModels/SendMailViewModel.cs:72-73 | gives each entry trimmed, in order |
| SendMail.CheckAddresses | miniLook/ViewModels/SendMailViewModel.cs:106-108 | the early-exit loop answers true exactly when every address is valid |
| SendMail.BuildRecipientList | miniLook/ViewModels/SendMailViewModel.cs:110-113 | the loop builds exactly the To: list: one recipient per address, in order |
| SendMail.Suggestions | miniLook/ViewModels/SendMailViewModel.cs:206-221 | there are at most as many suggestions as people, and none has a blank address |
| SendMail.SuggestionsKeepSuggestible | miniLook/ViewModels/SendMailViewModel.cs:210-220 | every person whose first scored address is present and not blank is offered, with that address and their display name |
| SendMail.SuggestionsFromSuggestible | miniLook/ViewModels/SendMailViewModel.cs:210-220 | every suggestion is the first scored address and the display name of some person whose first address is present and not blank |
| SendMail.SendMailViewModel.constructor | miniLook/ViewModels/SendMailViewModel.cs:17-44 | every field starts empty or false, with no reply target |
| SendMail.SendMailViewModel.TryAddThisClickedItem | miniLook/ViewModels/SendMailViewModel.cs:46-61 | a valid clicked address clears the box and is appended untrimmed, and `CanSend` is not touched; an invalid one changes nothing |
| SendMail.SendMailViewModel.OnRecipientChanged | miniLook/ViewModels/SendMailViewModel.cs:63-76 | if every entry is valid, the list becomes the trimmed entries and `CanSend` becomes "list non-empty and body non-empty"; otherwise the list is empty and `CanSend` keeps its old value |
| SendMail.SendMailViewModel.SetRecipient | miniLook/ViewModels/SendMailViewModel.cs:23-24 | the recipient handler runs only when the text changes; the flag invariant is kept |
| SendMail.SendMailViewModel.OnNewBodyChanged | miniLook/ViewModels/SendMailViewModel.cs:78-81 | `CanSend` becomes "some address committed and the new body non-empty" |
| SendMail.SendMailViewModel.SetNewBody | miniLook/ViewModels/SendMailViewModel.cs:20-21 | the body handler runs only when the body changes; `CanSend` is set only while the body is non-empty |
| SendMail.SendMailViewModel.GoBack | miniLook/ViewModels/SendMailViewModel.cs:97-98 | one more navigation back is recorded |
| SendMail.SendMailViewModel.SendMail | miniLook/ViewModels/SendMailViewModel.cs:100-135 | with `CanSend`, all addresses valid and a client, exactly one message is recorded (a reply when a reply target is set, else a new mail) with the subject, the body and the To: list, and navigation goes back once; otherwise nothing happens |
| SendMail.SendMailViewModel.ForwardMail | miniLook/ViewModels/SendMailViewModel.cs:137-169 | under the same guards, exactly one new mail whose subject is `Fwd: ` plus the current subject is recorded, never a reply, and navigation goes back once; otherwise nothing happens |
| SendMail.SendMailViewModel.LoadSuggestedEmails | miniLook/ViewModels/SendMailViewModel.cs:199-222 | without a client the suggestions are kept; otherwise they are replaced by the suggestions for the people list, in order |
| SendMail.SendMailViewModel.OnNavigatedTo | miniLook/ViewModels/SendMailViewModel.cs:172-196 | a reply gets the `Re: ` subject, appends the sender and sets the reply target, and leaves the body and `CanSend` alone; a forward gets the `Fwd: ` subject and the quoted body through the body setter, and `CanSend` follows the body hook; anything else changes no draft field |
| SendMail.StaleFlagDraft | miniLook/ViewModels/SendMailViewModel.cs:63-76 | after a valid address and then `;` are typed, the address list is empty while `CanSend` is still set |
| SendMail.StaleFlagSendsToNobody | miniLook/ViewModels/SendMailViewModel.cs:101-116 | that draft is sent, as a new message with an empty To: list |
| Mailbox.CountUnread | miniLook/ViewModels/ListDetailsViewModel.cs:48 | the count of messages whose read flag is `false`; `Mailbox.CountUnreadIsUnreadPositions` ties it to the set of unread positions |
| Mailbox.CountUnreadIsUnreadPositions | miniLook/ViewModels/ListDetailsViewModel.cs:48 | the recount equals the number of positions whose read flag is `false`; null flags are not counted |
| Mailbox.CountUnreadAppend | miniLook/ViewModels/ListDetailsViewModel.cs:48 | the count of a concatenation is the sum of the counts |
| Mailbox.CountUnreadRange | miniLook/ViewModels/ListDetailsViewModel.cs:48 | the count never exceeds the list length, and it is zero exactly when no message is unread |
| Mailbox.CountUnreadReversed | miniLook/ViewModels/ListDetailsViewModel.cs:48 | reversing the list does not change the count |
| Mailbox.Reversed | miniLook/ViewModels/ListDetailsViewModel.cs:69-70 | the reversal has the same length, and position `i` holds element `n-1-i` |
| Mailbox.ReversedSnoc | miniLook/ViewModels/ListDetailsViewModel.cs:69-70 | an element added at the back of a batch comes out at the front of its reversal |
| Mailbox.WeekStartOffset | miniLook/ViewModels/ListDetailsViewModel.cs:180 | `Sunday - today.DayOfWeek`; `Mailbox.WeekStartOffsetIsLastSunday` states that it reaches back to the latest Sunday |
| Mailbox.WeekStartOffsetIsLastSunday | miniLook/ViewModels/ListDetailsViewModel.cs:180-183 | `Sunday - DayOfWeek` lies in [-6, 0] and lands on the latest Sunday on or before today |
| Mailbox.CalendarWindow | miniLook/ViewModels/ListDetailsViewModel.cs:122-123 | the window from the week's Sunday to two days later, none when that Sunday is not representable; `Mailbox.CalendarWindowSundayToTuesday` states its bounds |
| Mailbox.CalendarWindowSundayToTuesday | miniLook/ViewModels/ListDetailsViewModel.cs:122-123 | the window runs from that Sunday to the Tuesday after; only the first six representable days have no window |
| Mailbox.ListDetailsViewModel.constructor | miniLook/ViewModels/ListDetailsViewModel.cs:16-33 | both lists start empty, the count at zero, no client, the load flag clear and the cursor at its minimum |
| Mailbox.ListDetailsViewModel.MailItemsCollectionChanged | miniLook/ViewModels/ListDetailsViewModel.cs:46-49 | the unread count is set to the recount of the current list |
| Mailbox.ListDetailsViewModel.InsertAtHead | miniLook/ViewModels/ListDetailsViewModel.cs:70 | the message goes in front, and the count stays equal to the recount |
| Mailbox.ListDetailsViewModel.AppendMail | miniLook/ViewModels/ListDetailsViewModel.cs:114 | the message goes at the back, and the count stays equal to the recount |
| Mailbox.ListDetailsViewModel.ClearCollections | miniLook/ViewModels/ListDetailsViewModel.cs:77-78 | both lists are emptied and the count becomes zero |
| Mailbox.ListDetailsViewModel.InsertAllAtHead | miniLook/ViewModels/ListDetailsViewModel.cs:69-70 | inserting a batch one message at a time at the head leaves the reversed batch in front of the old list |
| Mailbox.ListDetailsViewModel.AppendAllMail | miniLook/ViewModels/ListDetailsViewModel.cs:113-114 | the page is appended in the order it was returned |
| Mailbox.ListDetailsViewModel.AppendAllEvents | miniLook/ViewModels/ListDetailsViewModel.cs:137-138 | the events are appended in the order they were returned |
| Mailbox.ListDetailsViewModel.CheckTimerTick | miniLook/ViewModels/ListDetailsViewModel.cs:51-73 | without a client or with an empty batch, the list, the count and the cursor are unchanged; otherwise the list is the reversed batch followed by the old list, the count grows by the batch's unread messages, and the cursor moves to now |
| Mailbox.ListDetailsViewModel.OnNavigatedTo | miniLook/ViewModels/ListDetailsViewModel.cs:75-80 | both lists are empty afterwards |
| Mailbox.ListDetailsViewModel.TryToLoadMail | miniLook/ViewModels/ListDetailsViewModel.cs:96-141 | the load flag is set even without a provider, in which case nothing else changes; with one, the client and the account name are set, and the inbox page is appended in order; the events are appended in order and the cursor set only when the calendar window exists |
| Mailbox.ListDetailsViewModel.Refresh | miniLook/ViewModels/ListDetailsViewModel.cs:88-94 | both lists are cleared, then the load runs; the load flag stays set |
| Mailbox.ListDetailsViewModel.OnProviderStateChanged | miniLook/ViewModels/ListDetailsViewModel.cs:166-173 | a load starts exactly when the new state is signed-in, a provider exists in the signed-in state and no load was attempted; the handler then starts at most one load |
| Mailbox.SecondSignInLoadsNothing | miniLook/ViewModels/ListDetailsViewModel.cs:166-173 | once the load flag is set, a further sign-in event leaves both lists alone, and the handler has still started at most one load |

## Left out

- Calls to the mailbox service are not performed. This covers the message delta query, message sends, replies, the calendar view, the people list and the user profile. Their results are parameters and their effects are records, because the transport is external code.
- Sign-in is not modelled: `EstablishGraph` (ListDetailsViewModel.cs:148-164), MSAL and the environment-variable read are foreign identity code and I/O. A provider's existence and state are parameters.
- The dispatcher timer and the interleaving of `async void` handlers are not modelled; each handler is one atomic step. A tick racing an in-flight load is therefore outside the model.
- Exceptions thrown by service calls, and an unknown time-zone id, are not modelled.
- Clocks are parameters: the current time is `now`, the load's completion instant is `finishedAt`, and the current date is `today`. Time zones, time of day and the conversion to UTC are left out. Only the day arithmetic of the week start is modelled.
- The request details are not modelled: the OData filter text (ListDetailsViewModel.cs:58), the date formatting of the query options, the request header, the ordering, and the page sizes `Top(100)` and `Top(3)`. These are request parameters for the remote API, so any returned page is accepted.
- Opening the web client (`GoToOutlook`), `Debug.WriteLine` and the navigation service are host effects and not modelled. `GoBack` is recorded as a counter.
- The `Selected` property and `OnNavigatedFrom` have no logic to model.
- `\w` is approximated by ASCII `[A-Za-z0-9_]`, and `Char.IsWhiteSpace` by space and `\t` to `\r`, because Unicode character classes are not available.
- `StartsWith("Re: ")` is culture-sensitive in .NET and is modelled as an ordinal prefix test.
- The `try`/`catch` around the add in `TryAddThisClickedItem` is omitted, since adding to the collection cannot fail here.
- The `MailData`, `MessageActionFlag` and `EmailAddress` types are defined in files that are not part of this model. Their fields are given by how the view-model uses them. A navigation parameter that is not a (message, action) pair is `None`.
- Mailbox.ListDetailsViewModel.OnProviderStateChanged's contract says nothing about the unread count directly; `Valid()` keeps it equal to the recount.
