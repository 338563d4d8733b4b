/**
 * The mailbox list view (`ListDetailsViewModel`): a cache of inbox messages
 * and upcoming calendar events, with the number of unread messages recounted
 * after every change to the message list, a sync cursor, a timer poll that
 * puts new messages in front, an initial load that runs at most once from the
 * sign-in handler, and the arithmetic that picks the Sunday starting the
 * calendar window.
 *
 * The mailbox service is not modelled: whether a provider or a client is
 * available and what each request returns are parameters. Instants are
 * whole numbers of clock ticks, with `MinSync` standing for
 * `DateTimeOffset.MinValue`; dates are day numbers counted from 0001-01-01.
 */
module Mailbox {
  import opened Optional

  /** An inbox message; `isRead` may be null. */
  datatype MailItem = MailItem(id: string, subject: string, isRead: Option<bool>)

  datatype CalendarEvent = CalendarEvent(subject: string, start: int)

  /** What the initial load receives: the user's name, the first inbox page, the calendar page, and the time it finished. */
  datatype LoadResponse = LoadResponse(displayName: string, messages: seq<MailItem>, events: seq<CalendarEvent>, finishedAt: nat)

  datatype ProviderState = SignedOut | Loading | SignedIn

  // ---------------------------------------------------------------------------
  // Unread count

  predicate IsUnread(m: MailItem) {
    m.isRead == Some(false)
  }

  /** The number of messages whose read flag is `false`; a null flag does not count. */
  function CountUnread(items: seq<MailItem>): nat {
    if items == [] then 0
    else CountUnread(items[..|items| - 1]) + (if IsUnread(items[|items| - 1]) then 1 else 0)
  }

  /** The positions of the unread messages: the reference the count is compared with. */
  function UnreadPositions(items: seq<MailItem>): set<int> {
    set i | 0 <= i < |items| && IsUnread(items[i])
  }

  /** The count is the number of unread positions. */
  lemma {:induction false} CountUnreadIsUnreadPositions(items: seq<MailItem>)
    ensures CountUnread(items) == |UnreadPositions(items)|
  {
    if items != [] {
      var n := |items| - 1;
      var front := items[..n];
      CountUnreadIsUnreadPositions(front);
      var s := UnreadPositions(front);
      assert n !in s;
      if IsUnread(items[n]) {
        assert UnreadPositions(items) == s + {n};
      } else {
        assert UnreadPositions(items) == s;
      }
    }
  }

  /** The count of two lists put together is the sum of their counts. */
  lemma {:induction false} CountUnreadAppend(a: seq<MailItem>, b: seq<MailItem>)
    ensures CountUnread(a + b) == CountUnread(a) + CountUnread(b)
    decreases |b|
  {
    if b == [] {
      assert a + b == a;
    } else {
      var n := |b| - 1;
      CountUnreadAppend(a, b[..n]);
      assert (a + b)[..|a + b| - 1] == a + b[..n];
    }
  }

  /** The count is zero exactly when no message is unread, and never exceeds the number of messages. */
  lemma {:induction false} CountUnreadRange(items: seq<MailItem>)
    ensures CountUnread(items) <= |items|
    ensures CountUnread(items) == 0 <==> forall i :: 0 <= i < |items| ==> !IsUnread(items[i])
  {
    if items != [] {
      var n := |items| - 1;
      CountUnreadRange(items[..n]);
      assert forall i :: 0 <= i < n ==> items[..n][i] == items[i];
    }
  }

  // ---------------------------------------------------------------------------
  // Reversal

  /** `s` back to front. */
  function Reversed<T>(s: seq<T>): (r: seq<T>)
    ensures |r| == |s|
    ensures forall i :: 0 <= i < |s| ==> r[i] == s[|s| - 1 - i]
  {
    if s == [] then [] else [s[|s| - 1]] + Reversed(s[..|s| - 1])
  }

  /** Putting one more element at the back of `s` puts it at the front of the reversal. */
  lemma ReversedSnoc<T>(s: seq<T>, x: T)
    ensures Reversed(s + [x]) == [x] + Reversed(s)
  {
    assert (s + [x])[..|s|] == s;
  }

  /** Reversal leaves the unread count alone. */
  lemma {:induction false} CountUnreadReversed(items: seq<MailItem>)
    ensures CountUnread(Reversed(items)) == CountUnread(items)
  {
    if items != [] {
      var n := |items| - 1;
      CountUnreadReversed(items[..n]);
      CountUnreadAppend([items[n]], Reversed(items[..n]));
      assert [items[n]][..0] == [];
    }
  }

  // ---------------------------------------------------------------------------
  // Start of the calendar window

  /** The last representable day, 9999-12-31. */
  const MaxDay: int := 3652058

  /** A day number: days since 0001-01-01 within the representable range. */
  type Day = d: int | 0 <= d <= MaxDay

  const Sunday: int := 0

  /** `DateTime.DayOfWeek`, Sunday being 0: day 0, 0001-01-01, is a Monday. */
  function DayOfWeek(day: int): int {
    (day + 1) % 7
  }

  /** `Sunday - today.DayOfWeek`: how far back the week's Sunday is. */
  function WeekStartOffset(today: Day): int {
    Sunday - DayOfWeek(today)
  }

  /**
   * The offset goes back at most six days and lands on a Sunday, the latest
   * Sunday on or before `today`.
   */
  lemma WeekStartOffsetIsLastSunday(today: Day)
    ensures -6 <= WeekStartOffset(today) <= 0
    ensures DayOfWeek(today + WeekStartOffset(today)) == Sunday
    ensures forall k :: today + WeekStartOffset(today) < k <= today ==> DayOfWeek(k) != Sunday
  {
    var w := DayOfWeek(today);
    var start := today - w;
    assert (start + 1) % 7 == 0 by {
      assert today + 1 == 7 * ((today + 1) / 7) + w;
      assert start + 1 == 7 * ((today + 1) / 7);
    }
    forall k | start < k <= today
      ensures DayOfWeek(k) != Sunday
    {
      assert k + 1 == 7 * ((today + 1) / 7) + (k - start);
      assert 0 < k - start <= 6;
    }
  }

  /**
   * The calendar window `[start, start + 2]` where `start` is the week's
   * Sunday; `None` before the first Sunday, day 6, where going back to the Sunday leaves the
   * representable range and `AddDays` fails.
   */
  function CalendarWindow(today: Day): Option<(Day, Day)> {
    var start := today + WeekStartOffset(today);
    if start < 0 then None else Some((start, start + 2))
  }

  /**
   * The window starts on the Sunday of `today`'s week and ends on the
   * Tuesday after, which is not the end of the week. The first six days,
   * 0001-01-01 to 0001-01-06, have no Sunday before them and so no window.
   */
  lemma CalendarWindowSundayToTuesday(today: Day)
    ensures CalendarWindow(today).None? <==> today < 6
    ensures CalendarWindow(today).Some? ==>
              var (start, end) := CalendarWindow(today).value;
              start <= today && DayOfWeek(start) == Sunday && end == start + 2 && DayOfWeek(end) == 2
  {
    WeekStartOffsetIsLastSunday(today);
    var start := today + WeekStartOffset(today);
    assert DayOfWeek(start + 2) == ((start + 1) % 7 + 2) % 7;
  }

  // ---------------------------------------------------------------------------
  // The view-model

  const MinSync: nat := 0

  class ListDetailsViewModel {
    var loadedMail: bool
    var accountName: string
    var numberUnread: int
    var mailItems: seq<MailItem>
    var events: seq<CalendarEvent>
    /** Whether a mailbox client has been obtained. */
    var hasClient: bool
    var lastSync: nat
    /** How many loads the sign-in handler has started. */
    ghost var stateLoads: nat

    /**
     * The unread count always matches the list, and the sign-in handler has
     * started a load only if the one-shot flag is set, and at most one.
     */
    ghost predicate Valid()
      reads this
    {
      numberUnread == CountUnread(mailItems)
      && stateLoads <= (if loadedMail then 1 else 0)
    }

    constructor ()
      ensures Valid()
      ensures !loadedMail && accountName == "" && numberUnread == 0
      ensures mailItems == [] && events == [] && !hasClient && lastSync == MinSync
      ensures stateLoads == 0
    {
      loadedMail := false;
      accountName := "";
      numberUnread := 0;
      mailItems, events := [], [];
      hasClient := false;
      lastSync := MinSync;
      stateLoads := 0;
    }

    /** The message list changed: recount the unread messages. */
    method MailItemsCollectionChanged()
      modifies this`numberUnread
      ensures numberUnread == CountUnread(mailItems)
    {
      numberUnread := CountUnread(mailItems);
    }

    /** `MailItems.Insert(0, m)`, which raises the change notification. */
    method InsertAtHead(m: MailItem)
      requires Valid()
      modifies this`mailItems, this`numberUnread
      ensures Valid() && mailItems == [m] + old(mailItems)
    {
      mailItems := [m] + mailItems;
      MailItemsCollectionChanged();
    }

    /** `MailItems.Add(m)`, which raises the change notification. */
    method AppendMail(m: MailItem)
      requires Valid()
      modifies this`mailItems, this`numberUnread
      ensures Valid() && mailItems == old(mailItems) + [m]
    {
      mailItems := mailItems + [m];
      MailItemsCollectionChanged();
    }

    /** `MailItems.Clear()` and `Events.Clear()`. */
    method ClearCollections()
      requires Valid()
      modifies this`mailItems, this`numberUnread, this`events
      ensures Valid() && mailItems == [] && events == [] && numberUnread == 0
    {
      mailItems := [];
      MailItemsCollectionChanged();
      events := [];
    }

    /** `foreach (m in batch) MailItems.Insert(0, m)`: the batch ends up reversed in front. */
    method InsertAllAtHead(batch: seq<MailItem>)
      requires Valid()
      modifies this`mailItems, this`numberUnread
      ensures Valid() && mailItems == Reversed(batch) + old(mailItems)
    {
      var i := 0;
      while i < |batch|
        invariant 0 <= i <= |batch|
        invariant Valid()
        invariant mailItems == Reversed(batch[..i]) + old(mailItems)
      {
        ReversedSnoc(batch[..i], batch[i]);
        assert batch[..i + 1] == batch[..i] + [batch[i]];
        InsertAtHead(batch[i]);
        i := i + 1;
      }
      assert batch[..i] == batch;
    }

    /** `foreach (m in page) MailItems.Add(m)`. */
    method AppendAllMail(page: seq<MailItem>)
      requires Valid()
      modifies this`mailItems, this`numberUnread
      ensures Valid() && mailItems == old(mailItems) + page
    {
      var i := 0;
      while i < |page|
        invariant 0 <= i <= |page|
        invariant Valid()
        invariant mailItems == old(mailItems) + page[..i]
      {
        assert page[..i + 1] == page[..i] + [page[i]];
        AppendMail(page[i]);
        i := i + 1;
      }
      assert page[..i] == page;
    }

    /** `foreach (ev in page) Events.Add(ev)`. */
    method AppendAllEvents(page: seq<CalendarEvent>)
      modifies this`events
      ensures events == old(events) + page
    {
      var i := 0;
      while i < |page|
        invariant 0 <= i <= |page|
        invariant events == old(events) + page[..i]
      {
        assert page[..i + 1] == page[..i] + [page[i]];
        events := events + [page[i]];
        i := i + 1;
      }
      assert page[..i] == page;
    }

    /**
     * A timer tick with the poll's result `poll` at time `now`: without a
     * client, or with an empty poll, nothing changes; otherwise every polled
     * message is inserted at the head in turn, so the batch ends up reversed
     * in front of the old list, and the cursor moves to `now`.
     */
    method CheckTimerTick(poll: seq<MailItem>, now: nat)
      requires Valid()
      modifies this`mailItems, this`numberUnread, this`lastSync
      ensures Valid()
      ensures !hasClient || poll == [] ==>
                mailItems == old(mailItems) && numberUnread == old(numberUnread) && lastSync == old(lastSync)
      ensures hasClient && poll != [] ==>
                mailItems == Reversed(poll) + old(mailItems)
                && numberUnread == old(numberUnread) + CountUnread(poll)
                && lastSync == now
    {
      if !hasClient {
        return;
      }
      if |poll| == 0 {
        return;
      }
      InsertAllAtHead(poll);
      CountUnreadAppend(Reversed(poll), old(mailItems));
      CountUnreadReversed(poll);
      lastSync := now;
    }

    /** Opening the view empties both lists; signing in is not part of this model. */
    method OnNavigatedTo()
      requires Valid()
      modifies this`mailItems, this`numberUnread, this`events
      ensures Valid() && mailItems == [] && events == [] && numberUnread == 0
    {
      ClearCollections();
    }

    /**
     * The initial load, for a provider that may be missing, with what the
     * requests return and the day it runs on. The one-shot flag is set
     * first, even without a provider. With a provider, the client is
     * obtained, the account name set, and the inbox page appended in order;
     * before the first Sunday the calendar window cannot be computed and the load stops
     * there; otherwise the events are appended in order and the cursor moves
     * to the time the load finished.
     */
    method TryToLoadMail(hasProvider: bool, resp: LoadResponse, today: Day)
      requires Valid()
      modifies this`loadedMail, this`hasClient, this`accountName, this`mailItems, this`numberUnread,
               this`events, this`lastSync
      ensures Valid() && loadedMail
      ensures !hasProvider ==>
                hasClient == old(hasClient) && accountName == old(accountName)
                && mailItems == old(mailItems) && numberUnread == old(numberUnread)
                && events == old(events) && lastSync == old(lastSync)
      ensures hasProvider ==>
                hasClient && accountName == resp.displayName
                && mailItems == old(mailItems) + resp.messages
                && numberUnread == old(numberUnread) + CountUnread(resp.messages)
      ensures hasProvider && CalendarWindow(today).None? ==>
                events == old(events) && lastSync == old(lastSync)
      ensures hasProvider && CalendarWindow(today).Some? ==>
                events == old(events) + resp.events && lastSync == resp.finishedAt
    {
      loadedMail := true;
      if !hasProvider {
        return;
      }
      hasClient := true;
      accountName := resp.displayName;
      AppendAllMail(resp.messages);
      CountUnreadAppend(old(mailItems), resp.messages);
      var window := CalendarWindow(today);
      if window.None? {
        return;
      }
      AppendAllEvents(resp.events);
      lastSync := resp.finishedAt;
    }

    /** The refresh command: empty both lists, then load again; the one-shot flag is not reset. */
    method Refresh(hasProvider: bool, resp: LoadResponse, today: Day)
      requires Valid()
      modifies this`loadedMail, this`hasClient, this`accountName, this`mailItems, this`numberUnread,
               this`events, this`lastSync
      ensures Valid() && loadedMail
      ensures !hasProvider ==>
                mailItems == [] && events == [] && numberUnread == 0
                && hasClient == old(hasClient) && accountName == old(accountName) && lastSync == old(lastSync)
      ensures hasProvider ==>
                hasClient && accountName == resp.displayName
                && mailItems == resp.messages && numberUnread == CountUnread(resp.messages)
      ensures hasProvider && CalendarWindow(today).None? ==> events == [] && lastSync == old(lastSync)
      ensures hasProvider && CalendarWindow(today).Some? ==>
                events == resp.events && lastSync == resp.finishedAt
    {
      ClearCollections();
      TryToLoadMail(hasProvider, resp, today);
    }

    /**
     * The sign-in state changed to `newState`: a load starts only when the
     * new state is signed-in, a provider exists whose own state is
     * signed-in, and no load has been attempted yet.
     */
    method OnProviderStateChanged(newState: ProviderState, hasProvider: bool, providerState: ProviderState,
                                  resp: LoadResponse, today: Day)
      requires Valid()
      modifies this
      ensures Valid()
      ensures var loads := newState == SignedIn && hasProvider && !old(loadedMail) && providerState == SignedIn;
              (loads ==>
                 loadedMail && stateLoads == 1 && hasClient && accountName == resp.displayName
                 && mailItems == old(mailItems) + resp.messages
                 && (CalendarWindow(today).None? ==> events == old(events) && lastSync == old(lastSync))
                 && (CalendarWindow(today).Some? ==>
                       events == old(events) + resp.events && lastSync == resp.finishedAt))
              && (!loads ==>
                    loadedMail == old(loadedMail) && stateLoads == old(stateLoads)
                    && hasClient == old(hasClient) && accountName == old(accountName)
                    && mailItems == old(mailItems) && events == old(events) && lastSync == old(lastSync))
    {
      if newState != SignedIn || !hasProvider {
        return;
      }
      if !loadedMail && providerState == SignedIn {
        TryToLoadMail(true, resp, today);
        stateLoads := stateLoads + 1;
      }
    }
  }

  /** A second sign-in event after a load starts nothing, whatever it reports. */
  method SecondSignInLoadsNothing(vm: ListDetailsViewModel, hasProvider: bool, providerState: ProviderState,
                                  resp: LoadResponse, today: Day)
    requires vm.Valid() && vm.loadedMail
    modifies vm
    ensures vm.Valid() && vm.stateLoads <= 1
    ensures vm.mailItems == old(vm.mailItems) && vm.events == old(vm.events)
  {
    vm.OnProviderStateChanged(SignedIn, hasProvider, providerState, resp, today);
  }
}
