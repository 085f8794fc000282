/** The event store and its request handlers (eventController.js): create,
    list with search, detail lookup, RSVP admission control and deletion.

    Every handler that writes is given twice: as a step function from the store's
    contents to its new contents and reply, about which the lemmas below are
    proved, and as a method of `EventStore` that performs the handler's reads
    and writes one at a time and is proved to agree with the step function. */
module Events {
  import opened Common

  type UserId = nat
  type EventId = nat

  /** The fields `createEvent` takes from the request body. */
  datatype EventInput = EventInput(
    title: string, description: string, date: int, location: string,
    capacity: int, images: seq<string>)

  /** A stored event document; `organizer` and `attendees` hold user ids. */
  datatype Event = Event(
    id: EventId, title: string, description: string, date: int, location: string,
    capacity: int, images: seq<string>, organizer: UserId, attendees: seq<UserId>)

  // ---------------------------------------------------------------------------
  // Lookup by id (findById), and the store invariant
  // ---------------------------------------------------------------------------

  function IndexOf(events: seq<Event>, id: EventId): (r: Option<nat>)
    ensures r.Some? ==> r.value < |events| && events[r.value].id == id
    ensures r.None? ==> forall k :: 0 <= k < |events| ==> events[k].id != id
  {
    FirstWhere(events, (e: Event) => e.id == id)
  }

  predicate Exists(events: seq<Event>, id: EventId)
  {
    exists k :: 0 <= k < |events| && events[k].id == id
  }

  ghost predicate UniqueIds(events: seq<Event>)
  {
    forall j, k :: 0 <= j < k < |events| ==> events[j].id != events[k].id
  }

  ghost predicate IdsBelow(events: seq<Event>, next: EventId)
  {
    forall k :: 0 <= k < |events| ==> events[k].id < next
  }

  /** The load-bearing invariant: nobody is admitted beyond capacity. An event
      whose capacity is zero or negative admits nobody at all. */
  predicate WithinCapacity(e: Event)
  {
    |e.attendees| == 0 || |e.attendees| <= e.capacity
  }

  ghost predicate AllWithinCapacity(events: seq<Event>)
  {
    forall k :: 0 <= k < |events| ==> WithinCapacity(events[k])
  }

  ghost predicate NoRepeatAttendees(events: seq<Event>)
  {
    forall k :: 0 <= k < |events| ==> Distinct(events[k].attendees)
  }

  /** With unique ids, the event at index k is the one findById returns. */
  lemma IndexOfUnique(events: seq<Event>, k: nat)
    requires UniqueIds(events)
    requires k < |events|
    ensures IndexOf(events, events[k].id) == Some(k)
  {
    var r := IndexOf(events, events[k].id);
    assert r.Some?;
    assert events[r.value].id == events[k].id;
  }

  // ---------------------------------------------------------------------------
  // createEvent
  // ---------------------------------------------------------------------------

  /** The document createEvent saves: the body's fields, the caller as organizer,
      and the schema's empty attendee list. */
  function NewEvent(id: EventId, requester: UserId, input: EventInput): Event
  {
    Event(id, input.title, input.description, input.date, input.location,
          input.capacity, input.images, requester, [])
  }

  lemma CreatePreservesInvariants(events: seq<Event>, next: EventId, requester: UserId, input: EventInput)
    requires UniqueIds(events) && IdsBelow(events, next)
    requires AllWithinCapacity(events) && NoRepeatAttendees(events)
    ensures var s := events + [NewEvent(next, requester, input)];
      UniqueIds(s) && IdsBelow(s, next + 1) && AllWithinCapacity(s) && NoRepeatAttendees(s)
  {
  }

  // ---------------------------------------------------------------------------
  // getEventById
  // ---------------------------------------------------------------------------

  datatype Detail = Found(event: Event) | NotFound
  {
    function Status(): nat
    {
      if Found? then 200 else 404
    }

    function Message(): string
      requires NotFound?
    {
      "Event not found"
    }
  }

  function GetEventById(events: seq<Event>, id: EventId): (r: Detail)
    ensures r.Found? <==> Exists(events, id)
    ensures r.Found? ==> r.event in events && r.event.id == id
    ensures r.NotFound? ==> r.Status() == 404
  {
    match IndexOf(events, id)
    case None => NotFound
    case Some(k) => Found(events[k])
  }

  /** Creating an event and then fetching it by its new id returns the fields
      that were given, with the caller as organizer and nobody attending. */
  lemma {:induction false} CreateThenGet(events: seq<Event>, next: EventId, requester: UserId, input: EventInput)
    requires IdsBelow(events, next)
    ensures var r := GetEventById(events + [NewEvent(next, requester, input)], next);
      && r.Found? && r.Status() == 200
      && r.event.id == next
      && r.event.title == input.title && r.event.description == input.description
      && r.event.date == input.date && r.event.location == input.location
      && r.event.capacity == input.capacity && r.event.images == input.images
      && r.event.organizer == requester && r.event.attendees == []
  {
    var p := (e: Event) => e.id == next;
    FirstWhereAppend(events, NewEvent(next, requester, input), p);
  }

  // ---------------------------------------------------------------------------
  // getEvents (the second definition, which replaces the first)
  // ---------------------------------------------------------------------------

  function LowerChar(c: char): char
  {
    if 'A' <= c <= 'Z' then (c as int + 32) as char else c
  }

  function Lower(s: string): (r: string)
    ensures |r| == |s|
    ensures forall i :: 0 <= i < |s| ==> r[i] == LowerChar(s[i])
  {
    if |s| == 0 then [] else [LowerChar(s[0])] + Lower(s[1..])
  }

  /** `needle` occurs in `hay` at offset i. */
  ghost predicate OccursAt(hay: string, needle: string, i: int)
  {
    0 <= i && i + |needle| <= |hay| && hay[i..i + |needle|] == needle
  }

  predicate HasPrefix(s: string, p: string)
  {
    |p| <= |s| && s[..|p|] == p
  }

  /** Substring search, written the way a scanner runs through `hay`. */
  predicate HasInfix(hay: string, needle: string)
  {
    HasPrefix(hay, needle) || (|hay| > 0 && HasInfix(hay[1..], needle))
  }

  lemma {:induction false} HasInfixFinds(hay: string, needle: string, i: int)
    requires OccursAt(hay, needle, i)
    ensures HasInfix(hay, needle)
    decreases i
  {
    if i == 0 {
      assert hay[..|needle|] == hay[0..|needle|];
    } else {
      assert hay[1..][i - 1..i - 1 + |needle|] == hay[i..i + |needle|];
      HasInfixFinds(hay[1..], needle, i - 1);
    }
  }

  lemma {:induction false} HasInfixOccurs(hay: string, needle: string) returns (i: int)
    requires HasInfix(hay, needle)
    ensures OccursAt(hay, needle, i)
    decreases |hay|
  {
    if HasPrefix(hay, needle) {
      i := 0;
      assert hay[0..|needle|] == hay[..|needle|];
    } else {
      var j := HasInfixOccurs(hay[1..], needle);
      assert hay[1..][j..j + |needle|] == hay[j + 1..j + 1 + |needle|];
      i := j + 1;
    }
  }

  /** The scanner agrees with the definition of an occurrence: it finds one
      exactly when there is an offset where the needle occurs. */
  lemma HasInfixIff(hay: string, needle: string)
    ensures HasInfix(hay, needle) <==> exists i :: OccursAt(hay, needle, i)
  {
    if HasInfix(hay, needle) {
      var i := HasInfixOccurs(hay, needle);
    }
    if exists i :: OccursAt(hay, needle, i) {
      var i :| OccursAt(hay, needle, i);
      HasInfixFinds(hay, needle, i);
    }
  }

  /** Case-insensitive literal substring match. */
  predicate ContainsIgnoreCase(hay: string, needle: string)
  {
    HasInfix(Lower(hay), Lower(needle))
  }

  /** The list query: no search term (or an empty one) selects every event;
      otherwise the term must match the title or the location. */
  predicate Selected(e: Event, search: Option<string>)
  {
    match search
    case None => true
    case Some(t) => t == "" || ContainsIgnoreCase(e.title, t) || ContainsIgnoreCase(e.location, t)
  }

  /** One entry of the list response: the projected fields, only the first
      image, the attendee list as stored, and its length as `attendeesCount`.
      The description is not projected. */
  datatype Card = Card(
    id: EventId, title: string, date: int, location: string, capacity: int,
    organizer: UserId, images: seq<string>, attendees: seq<UserId>, attendeesCount: nat)

  function CardOf(e: Event): Card
  {
    Card(e.id, e.title, e.date, e.location, e.capacity, e.organizer,
         if |e.images| == 0 then [] else [e.images[0]],
         e.attendees, |e.attendees|)
  }

  function GetEvents(events: seq<Event>, search: Option<string>): (r: seq<Card>)
    ensures |r| <= |events|
    ensures forall c :: c in r ==> exists k :: 0 <= k < |events| && Selected(events[k], search) && c == CardOf(events[k])
    ensures forall k :: 0 <= k < |events| && Selected(events[k], search) ==> CardOf(events[k]) in r
  {
    if |events| == 0 then []
    else
      var rest := GetEvents(events[1..], search);
      ListingOfTail(events, search, rest);
      if Selected(events[0], search) then [CardOf(events[0])] + rest else rest
  }

  /** What the listing of all events but the first says about the whole store. */
  lemma ListingOfTail(events: seq<Event>, search: Option<string>, rest: seq<Card>)
    requires |events| > 0
    requires forall c :: c in rest ==>
      exists k :: 0 <= k < |events| - 1 && Selected(events[1..][k], search) && c == CardOf(events[1..][k])
    requires forall k :: 0 <= k < |events| - 1 && Selected(events[1..][k], search) ==> CardOf(events[1..][k]) in rest
    ensures forall c :: c in rest ==>
      exists k :: 0 <= k < |events| && Selected(events[k], search) && c == CardOf(events[k])
    ensures forall k :: 1 <= k < |events| && Selected(events[k], search) ==> CardOf(events[k]) in rest
  {
    forall c | c in rest
      ensures exists k :: 0 <= k < |events| && Selected(events[k], search) && c == CardOf(events[k])
    {
      var k :| 0 <= k < |events| - 1 && Selected(events[1..][k], search) && c == CardOf(events[1..][k]);
      assert events[1..][k] == events[k + 1];
    }
    forall k | 1 <= k < |events| && Selected(events[k], search) ensures CardOf(events[k]) in rest {
      assert events[1..][k - 1] == events[k];
    }
  }

  /** Without a search term the list has one card per stored event, in store order. */
  lemma {:induction false} ListAllWithoutSearch(events: seq<Event>, search: Option<string>)
    requires search == None || search == Some("")
    ensures var r := GetEvents(events, search);
      |r| == |events| && forall k :: 0 <= k < |events| ==> r[k] == CardOf(events[k])
  {
    if |events| > 0 {
      ListAllWithoutSearch(events[1..], search);
      var r := GetEvents(events, search);
      assert r == [CardOf(events[0])] + GetEvents(events[1..], search);
      forall k | 1 <= k < |events| ensures r[k] == CardOf(events[k]) {
        assert events[1..][k - 1] == events[k];
      }
    }
  }

  /** Positions `ix` of `events` that the cards `r` are made from, in increasing order. */
  ghost predicate MadeFrom(events: seq<Event>, r: seq<Card>, ix: seq<nat>)
  {
    && |ix| == |r|
    && (forall i :: 0 <= i < |ix| ==> ix[i] < |events| && r[i] == CardOf(events[ix[i]]))
    && (forall i, j :: 0 <= i < j < |ix| ==> ix[i] < ix[j])
  }

  /** The stored positions the listing is made from: one per card, increasing. */
  lemma {:induction false} ListingPositions(events: seq<Event>, search: Option<string>) returns (ix: seq<nat>)
    ensures MadeFrom(events, GetEvents(events, search), ix)
  {
    if |events| == 0 {
      ix := [];
    } else {
      var t := ListingPositions(events[1..], search);
      var rest := GetEvents(events[1..], search);
      var shifted := ShiftPositions(events, rest, t);
      if Selected(events[0], search) {
        ix := ConsPosition(events, rest, shifted);
        assert GetEvents(events, search) == [CardOf(events[0])] + rest;
      } else {
        ix := shifted;
        assert GetEvents(events, search) == rest;
      }
    }
  }

  /** Positions in the tail, moved one up, are positions in the whole store. */
  lemma ShiftPositions(events: seq<Event>, rest: seq<Card>, t: seq<nat>) returns (shifted: seq<nat>)
    requires |events| > 0 && MadeFrom(events[1..], rest, t)
    ensures MadeFrom(events, rest, shifted)
    ensures forall i :: 0 <= i < |shifted| ==> shifted[i] > 0
  {
    shifted := seq(|t|, i requires 0 <= i < |t| => t[i] + 1);
    forall i | 0 <= i < |shifted| ensures shifted[i] < |events| && rest[i] == CardOf(events[shifted[i]]) {
      assert events[1..][t[i]] == events[t[i] + 1];
    }
  }

  /** Listing the first event in front of cards made from later positions. */
  lemma ConsPosition(events: seq<Event>, rest: seq<Card>, shifted: seq<nat>) returns (ix: seq<nat>)
    requires |events| > 0 && MadeFrom(events, rest, shifted)
    requires forall i :: 0 <= i < |shifted| ==> shifted[i] > 0
    ensures MadeFrom(events, [CardOf(events[0])] + rest, ix)
  {
    ix := [0] + shifted;
    var r := [CardOf(events[0])] + rest;
    forall i | 0 <= i < |ix| ensures ix[i] < |events| && r[i] == CardOf(events[ix[i]]) {
      if i > 0 {
        assert ix[i] == shifted[i - 1] && r[i] == rest[i - 1];
      }
    }
  }

  /** With or without a search term, the cards come in store order: of any two
      cards, the earlier one is made from an earlier stored event. */
  lemma ListingInStoreOrder(events: seq<Event>, search: Option<string>)
    ensures var r := GetEvents(events, search);
      forall i, j :: 0 <= i < j < |r| ==>
        exists a, b :: 0 <= a < b < |events| && r[i] == CardOf(events[a]) && r[j] == CardOf(events[b])
  {
    var ix := ListingPositions(events, search);
    var r := GetEvents(events, search);
    forall i, j | 0 <= i < j < |r|
      ensures exists a, b :: 0 <= a < b < |events| && r[i] == CardOf(events[a]) && r[j] == CardOf(events[b])
    {
      assert r[i] == CardOf(events[ix[i]]) && r[j] == CardOf(events[ix[j]]);
    }
  }

  /** Since ids are unique, no event is listed twice. */
  lemma ListingHasNoRepeats(events: seq<Event>, search: Option<string>)
    requires UniqueIds(events)
    ensures var r := GetEvents(events, search);
      forall i, j :: 0 <= i < j < |r| ==> r[i].id != r[j].id
  {
    ListingInStoreOrder(events, search);
  }

  /** With a search term, an event is listed exactly when the term occurs in its
      title or in its location, ignoring ASCII letter case. */
  lemma SearchSelects(e: Event, t: string)
    requires t != ""
    ensures Selected(e, Some(t)) <==>
      (exists i :: OccursAt(Lower(e.title), Lower(t), i)) || (exists i :: OccursAt(Lower(e.location), Lower(t), i))
  {
    HasInfixIff(Lower(e.title), Lower(t));
    HasInfixIff(Lower(e.location), Lower(t));
    assert Selected(e, Some(t)) == (HasInfix(Lower(e.title), Lower(t)) || HasInfix(Lower(e.location), Lower(t)));
  }

  /** Two search terms that differ only in letter case select the same events. */
  lemma SearchIgnoresCase(e: Event, s: string, t: string)
    requires Lower(s) == Lower(t)
    ensures Selected(e, Some(s)) == Selected(e, Some(t))
  {
    if s == "" || t == "" {
      assert |s| == |Lower(s)| == |Lower(t)| == |t|;
    }
  }

  /** Every listed card shows at most one image, the event's first, and an
      attendee count equal to the length of its attendee list. */
  lemma ListedCardsAreThumbnails(events: seq<Event>, search: Option<string>)
    ensures forall c :: c in GetEvents(events, search) ==>
      && |c.images| <= 1
      && c.attendeesCount == |c.attendees|
      && exists k :: (0 <= k < |events| && c.id == events[k].id
                && c.attendees == events[k].attendees
                && c.images <= events[k].images
                && (|events[k].images| > 0 ==> |c.images| == 1))
  {
    forall c | c in GetEvents(events, search)
      ensures |c.images| <= 1 && c.attendeesCount == |c.attendees|
      ensures exists k :: (0 <= k < |events| && c.id == events[k].id
                && c.attendees == events[k].attendees
                && c.images <= events[k].images
                && (|events[k].images| > 0 ==> |c.images| == 1))
    {
      var k :| 0 <= k < |events| && Selected(events[k], search) && c == CardOf(events[k]);
    }
  }

  // ---------------------------------------------------------------------------
  // rsvpEvent: advisory duplicate check, then one atomic conditional update
  // ---------------------------------------------------------------------------

  /** The condition of the atomic update: fewer attendees than the capacity. */
  predicate HasRoom(e: Event)
  {
    |e.attendees| < e.capacity
  }

  /** Seats left. */
  function Room(e: Event): nat
  {
    if e.capacity > |e.attendees| then e.capacity - |e.attendees| else 0
  }

  /** findOneAndUpdate: match the event with this id whose attendee count is
      below its capacity, push the user id at the end, and return the updated
      document. It does not look at whether the user is already there. */
  function ConditionalPush(events: seq<Event>, eventId: EventId, userId: UserId): Step<seq<Event>, Option<Event>>
  {
    match IndexOf(events, eventId)
    case None => Step(events, None)
    case Some(k) =>
      if HasRoom(events[k]) then
        var e := events[k].(attendees := events[k].attendees + [userId]);
        Step(events[k := e], Some(e))
      else Step(events, None)
  }

  /** The duplicate pre-check: the event exists and already lists the user. */
  predicate AlreadyAttending(events: seq<Event>, eventId: EventId, userId: UserId)
  {
    match IndexOf(events, eventId)
    case None => false
    case Some(k) => userId in events[k].attendees
  }

  /** The replies of rsvpEvent. A missing event and a full one give the same reply. */
  datatype RsvpResult = Joined(eventId: EventId) | AlreadyJoined | FullOrMissing
  {
    function Status(): nat
    {
      if Joined? then 200 else 400
    }

    function Message(): string
    {
      match this
      case Joined(_) => "RSVP Successful"
      case AlreadyJoined => "You have already joined this event"
      case FullOrMissing => "Event is full or does not exist"
    }
  }

  function RsvpStep(events: seq<Event>, eventId: EventId, userId: UserId): Step<seq<Event>, RsvpResult>
  {
    if AlreadyAttending(events, eventId, userId) then Step(events, AlreadyJoined)
    else
      var u := ConditionalPush(events, eventId, userId);
      match u.result
      case None => Step(u.state, FullOrMissing)
      case Some(e) => Step(u.state, Joined(e.id))
  }

  /** A user who already attends gets "already joined", and nothing changes;
      no other case gives that reply. */
  lemma RsvpAlreadyJoined(events: seq<Event>, eventId: EventId, userId: UserId)
    ensures var s := RsvpStep(events, eventId, userId);
      && (s.result == AlreadyJoined <==> AlreadyAttending(events, eventId, userId))
      && (s.result == AlreadyJoined ==> s.state == events && s.result.Status() == 400)
  {
  }

  /** RSVP succeeds exactly when the event exists, the user is not yet listed,
      and there is room; then the user is appended to that event's attendees
      and nothing else in the store changes. */
  lemma {:induction false} RsvpJoins(events: seq<Event>, eventId: EventId, userId: UserId)
    requires UniqueIds(events)
    ensures var s := RsvpStep(events, eventId, userId);
      s.result.Joined? <==>
        exists k :: 0 <= k < |events| && events[k].id == eventId
          && userId !in events[k].attendees && HasRoom(events[k])
    ensures var s := RsvpStep(events, eventId, userId);
      forall k :: 0 <= k < |events| && events[k].id == eventId && s.result.Joined? ==>
        && s.result == Joined(eventId)
        && s.result.Status() == 200 && s.result.Message() == "RSVP Successful"
        && |s.state| == |events|
        && s.state[k].attendees == events[k].attendees + [userId]
        && |s.state[k].attendees| == |events[k].attendees| + 1
        && s.state[k] == events[k].(attendees := s.state[k].attendees)
        && (forall j :: 0 <= j < |events| && j != k ==> s.state[j] == events[j])
  {
    var s := RsvpStep(events, eventId, userId);
    var r := IndexOf(events, eventId);
    if r.Some? {
      IndexOfUnique(events, r.value);
    }
    forall k | 0 <= k < |events| && events[k].id == eventId
      ensures IndexOf(events, eventId) == Some(k)
    {
      IndexOfUnique(events, k);
    }
  }

  /** A missing event and a full event give the identical reply, 400 "Event is
      full or does not exist", and leave the store unchanged. */
  lemma RsvpFullOrMissing(events: seq<Event>, eventId: EventId, userId: UserId)
    requires UniqueIds(events)
    ensures var s := RsvpStep(events, eventId, userId);
      (!Exists(events, eventId) ==> s == Step(events, FullOrMissing))
    ensures var s := RsvpStep(events, eventId, userId);
      forall k :: (0 <= k < |events| && events[k].id == eventId
                 && userId !in events[k].attendees && !HasRoom(events[k]))
        ==> s == Step(events, FullOrMissing)
    ensures var s := RsvpStep(events, eventId, userId);
      s.result == FullOrMissing ==>
        (s.state == events && s.result.Status() == 400
         && s.result.Message() == "Event is full or does not exist")
  {
    forall k | 0 <= k < |events| && events[k].id == eventId
      ensures IndexOf(events, eventId) == Some(k)
    {
      IndexOfUnique(events, k);
    }
  }

  /** The atomic update alone would append a user who is already listed: only
      the pre-check keeps duplicates out. */
  lemma ConditionalPushIgnoresMembership(events: seq<Event>, k: nat, userId: UserId)
    requires UniqueIds(events)
    requires k < |events| && HasRoom(events[k]) && userId in events[k].attendees
    ensures var u := ConditionalPush(events, events[k].id, userId);
      u.result.Some? && u.state[k].attendees == events[k].attendees + [userId]
      && !Distinct(u.state[k].attendees)
  {
    IndexOfUnique(events, k);
    var a := events[k].attendees;
    var i :| 0 <= i < |a| && a[i] == userId;
    var b := a + [userId];
    assert b[i] == b[|a|];
  }

  /** RSVP keeps every invariant of the store: unique ids, no event beyond its
      capacity, no attendee listed twice. */
  lemma {:induction false} RsvpPreservesInvariants(events: seq<Event>, eventId: EventId, userId: UserId)
    requires UniqueIds(events) && AllWithinCapacity(events) && NoRepeatAttendees(events)
    ensures var s := RsvpStep(events, eventId, userId);
      UniqueIds(s.state) && AllWithinCapacity(s.state) && NoRepeatAttendees(s.state)
      && (forall k :: 0 <= k < |s.state| ==> s.state[k].id == events[k].id)
      && |s.state| == |events|
  {
    var s := RsvpStep(events, eventId, userId);
    var r := IndexOf(events, eventId);
    if r.Some? && s.result.Joined? {
      var k := r.value;
      var a := events[k].attendees;
      assert userId !in a;
      assert s.state[k].attendees == a + [userId];
      assert Distinct(a + [userId]) by {
        forall i, j | 0 <= i < j < |a| + 1 ensures (a + [userId])[i] != (a + [userId])[j] {
          if j == |a| {
            assert (a + [userId])[i] == a[i];
            assert a[i] in a;
          } else {
            assert (a + [userId])[i] == a[i] && (a + [userId])[j] == a[j];
          }
        }
      }
      assert WithinCapacity(s.state[k]);
    }
  }

  /** Any sequence of RSVPs to one event, applied one at a time. */
  function RsvpSequence(events: seq<Event>, eventId: EventId, users: seq<UserId>): (s: Step<seq<Event>, seq<RsvpResult>>)
    ensures |s.result| == |users|
    decreases |users|
  {
    if |users| == 0 then Step(events, [])
    else
      var first := RsvpStep(events, eventId, users[0]);
      var rest := RsvpSequence(first.state, eventId, users[1..]);
      Step(rest.state, [first.result] + rest.result)
  }

  /** One newcomer to an event with room is admitted at the end of its list. */
  lemma AdmitOne(events: seq<Event>, k: nat, userId: UserId)
    requires UniqueIds(events)
    requires k < |events| && userId !in events[k].attendees && Room(events[k]) > 0
    ensures var e1 := events[k].(attendees := events[k].attendees + [userId]);
      && RsvpStep(events, events[k].id, userId) == Step(events[k := e1], Joined(events[k].id))
      && UniqueIds(events[k := e1])
      && Room(e1) == Room(events[k]) - 1
  {
    IndexOfUnique(events, k);
    var ev1 := events[k := events[k].(attendees := events[k].attendees + [userId])];
    assert forall i :: 0 <= i < |ev1| ==> ev1[i].id == events[i].id;
  }

  /** One newcomer to an event without room is turned away and nothing changes. */
  lemma RefuseOne(events: seq<Event>, k: nat, userId: UserId)
    requires UniqueIds(events)
    requires k < |events| && userId !in events[k].attendees && Room(events[k]) == 0
    ensures RsvpStep(events, events[k].id, userId) == Step(events, FullOrMissing)
  {
    IndexOfUnique(events, k);
  }

  /** The newcomers after the first are still distinct, and none of them is
      in the list once the first has been appended. */
  lemma TailStillNew(attendees: seq<UserId>, users: seq<UserId>)
    requires |users| > 0 && Distinct(users)
    requires forall i :: 0 <= i < |users| ==> users[i] !in attendees
    ensures Distinct(users[1..])
    ensures forall i :: 0 <= i < |users| - 1 ==> users[1..][i] !in attendees + [users[0]]
  {
    var tail := users[1..];
    assert forall i :: 0 <= i < |tail| ==> tail[i] == users[i + 1];
    forall i | 0 <= i < |tail| ensures tail[i] !in attendees + [users[0]] {
      assert users[0] != users[i + 1];
    }
  }

  /** Admission under contention: the replies. The conditional update is the
      only step that decides admission and it is indivisible, so concurrent
      distinct newcomers are served in some order of those steps. Whatever that
      order, the first Room(e) of them get in and every later one is told the
      event is full. */
  lemma {:induction false} SerialAdmission(events: seq<Event>, k: nat, users: seq<UserId>)
    requires UniqueIds(events)
    requires k < |events|
    requires Distinct(users)
    requires forall i :: 0 <= i < |users| ==> users[i] !in events[k].attendees
    ensures forall i :: 0 <= i < |users| ==>
      RsvpSequence(events, events[k].id, users).result[i]
        == if i < Room(events[k]) then Joined(events[k].id) else FullOrMissing
    decreases |users|
  {
    if |users| > 0 {
      var e := events[k];
      var id := e.id;
      TailStillNew(e.attendees, users);
      var first := RsvpStep(events, id, users[0]);
      var rest := RsvpSequence(first.state, id, users[1..]);
      assert RsvpSequence(events, id, users).result == [first.result] + rest.result;
      assert forall i :: 1 <= i < |users| ==> ([first.result] + rest.result)[i] == rest.result[i - 1];
      if Room(e) > 0 {
        AdmitOne(events, k, users[0]);
        var e1 := e.(attendees := e.attendees + [users[0]]);
        assert events[k := e1][k] == e1 && e1.id == id;
        var ev1 := events[k := e1];
        assert first == Step(ev1, Joined(id));
        SerialAdmission(ev1, k, users[1..]);
        assert ev1[k] == e1;
        assert rest == RsvpSequence(ev1, ev1[k].id, users[1..]);
        assert forall i :: 0 <= i < |users| - 1 ==>
          rest.result[i] == if i < Room(e) - 1 then Joined(id) else FullOrMissing;
      } else {
        RefuseOne(events, k, users[0]);
        SerialAdmission(events, k, users[1..]);
      }
    }
  }

  /** Admission under contention: the final store. The event ends with exactly
      min(N, Room(e)) new attendees, in the order they were served, and nothing
      else in the store changes. */
  lemma {:induction false} SerialAdmissionFinal(events: seq<Event>, k: nat, users: seq<UserId>)
    requires UniqueIds(events)
    requires k < |events|
    requires Distinct(users)
    requires forall i :: 0 <= i < |users| ==> users[i] !in events[k].attendees
    ensures RsvpSequence(events, events[k].id, users).state
      == events[k := events[k].(attendees := events[k].attendees + users[..Min(|users|, Room(events[k]))])]
    decreases |users|
  {
    var e := events[k];
    var id := e.id;
    if |users| == 0 {
      assert e.(attendees := e.attendees + users[..0]) == e;
      assert events[k := e] == events;
    } else {
      TailStillNew(e.attendees, users);
      var first := RsvpStep(events, id, users[0]);
      assert RsvpSequence(events, id, users).state == RsvpSequence(first.state, id, users[1..]).state;
      if Room(e) > 0 {
        AdmitOne(events, k, users[0]);
        var e1 := e.(attendees := e.attendees + [users[0]]);
        SerialAdmissionFinal(events[k := e1], k, users[1..]);
        AppendAdmitted(e.attendees, users, Min(|users|, Room(e)));
      } else {
        RefuseOne(events, k, users[0]);
        SerialAdmissionFinal(events, k, users[1..]);
        assert users[..0] == users[1..][..0];
      }
    }
  }

  lemma AppendAdmitted(a: seq<UserId>, users: seq<UserId>, m: int)
    requires 0 < m <= |users|
    ensures (a + [users[0]]) + users[1..][..m - 1] == a + users[..m]
  {
    assert users[..m] == [users[0]] + users[1..][..m - 1];
  }

  // ---------------------------------------------------------------------------
  // deleteEvent
  // ---------------------------------------------------------------------------

  datatype DeleteResult = Deleted | EventNotFound | NotAuthorized
  {
    function Status(): nat
    {
      match this
      case Deleted => 200
      case EventNotFound => 404
      case NotAuthorized => 401
    }

    function Message(): string
    {
      match this
      case Deleted => "Event deleted successfully"
      case EventNotFound => "Event not found"
      case NotAuthorized => "Not authorized to delete this event"
    }
  }

  function DeleteStep(events: seq<Event>, eventId: EventId, requester: UserId): Step<seq<Event>, DeleteResult>
  {
    match IndexOf(events, eventId)
    case None => Step(events, EventNotFound)
    case Some(k) =>
      if events[k].organizer != requester then Step(events, NotAuthorized)
      else Step(events[..k] + events[k + 1..], Deleted)
  }

  /** Removing the element at k keeps all others, in order. */
  lemma RemoveAt(events: seq<Event>, k: nat)
    requires k < |events|
    ensures var rest := events[..k] + events[k + 1..];
      && |rest| == |events| - 1
      && (forall j :: 0 <= j < |rest| ==> rest[j] == events[if j < k then j else j + 1])
  {
  }

  /** A missing id gives 404 and a requester other than the organizer gives 401;
      both leave the store as it was, so the event is still there after a 401. */
  lemma DeleteRefused(events: seq<Event>, eventId: EventId, requester: UserId)
    requires UniqueIds(events)
    ensures var s := DeleteStep(events, eventId, requester);
      && (s.result == EventNotFound <==> !Exists(events, eventId))
      && (s.result == NotAuthorized <==>
            exists k :: 0 <= k < |events| && events[k].id == eventId && events[k].organizer != requester)
      && (s.result != Deleted ==> s.state == events)
      && (s.result == NotAuthorized ==> Exists(s.state, eventId))
  {
    forall k | 0 <= k < |events| && events[k].id == eventId
      ensures IndexOf(events, eventId) == Some(k)
    {
      IndexOfUnique(events, k);
    }
  }

  /** With unique ids, removing the element at k leaves exactly the others. */
  lemma RemoveAtMembers(events: seq<Event>, k: nat)
    requires UniqueIds(events) && k < |events|
    ensures var rest := events[..k] + events[k + 1..];
      && UniqueIds(rest)
      && (forall j :: 0 <= j < |rest| ==> rest[j].id != events[k].id)
      && (forall e :: e in rest <==> e in events && e.id != events[k].id)
  {
    var rest := events[..k] + events[k + 1..];
    RemoveAt(events, k);
    forall j | 0 <= j < |rest| ensures rest[j].id != events[k].id {
      assert rest[j] == events[if j < k then j else j + 1];
    }
    forall e | e in events && e.id != events[k].id ensures e in rest {
      var j :| 0 <= j < |events| && events[j] == e;
      if j < k { assert rest[j] == e; } else { assert rest[j - 1] == e; }
    }
  }

  /** The organizer's delete removes exactly that event; every other event stays. */
  lemma DeleteRemoves(events: seq<Event>, eventId: EventId, requester: UserId)
    requires UniqueIds(events)
    ensures var s := DeleteStep(events, eventId, requester);
      s.result == Deleted ==>
        && |s.state| == |events| - 1
        && !Exists(s.state, eventId)
        && UniqueIds(s.state)
        && (forall e :: e in s.state <==> e in events && e.id != eventId)
        && (exists k :: 0 <= k < |events| && events[k].id == eventId
              && forall j :: 0 <= j < |s.state| ==> s.state[j] == events[if j < k then j else j + 1])
  {
    var r := IndexOf(events, eventId);
    if r.Some? {
      RemoveAt(events, r.value);
      RemoveAtMembers(events, r.value);
    }
  }

  lemma {:induction false} DeletePreservesInvariants(events: seq<Event>, next: EventId, eventId: EventId, requester: UserId)
    requires UniqueIds(events) && IdsBelow(events, next)
    requires AllWithinCapacity(events) && NoRepeatAttendees(events)
    ensures var s := DeleteStep(events, eventId, requester).state;
      UniqueIds(s) && IdsBelow(s, next) && AllWithinCapacity(s) && NoRepeatAttendees(s)
  {
    var r := IndexOf(events, eventId);
    if r.Some? {
      RemoveAt(events, r.value);
    }
  }

  // ---------------------------------------------------------------------------
  // The store, with the handlers that write to it
  // ---------------------------------------------------------------------------

  class EventStore {
    var events: seq<Event>
    var nextId: EventId

    ghost predicate Valid()
      reads this
    {
      UniqueIds(events) && IdsBelow(events, nextId) && AllWithinCapacity(events)
      && NoRepeatAttendees(events)
    }

    constructor ()
      ensures Valid() && events == [] && nextId == 0
    {
      events := [];
      nextId := 0;
    }

    /** createEvent: saves a new event owned by the requester and returns it. */
    method CreateEvent(requester: UserId, input: EventInput) returns (e: Event)
      requires Valid()
      modifies this
      ensures Valid()
      ensures e == NewEvent(old(nextId), requester, input)
      ensures events == old(events) + [e] && nextId == old(nextId) + 1
    {
      e := NewEvent(nextId, requester, input);
      CreatePreservesInvariants(events, nextId, requester, input);
      assert AllWithinCapacity(events + [e]) by {
        assert forall k :: 0 <= k < |events| ==> (events + [e])[k] == events[k];
      }
      events := events + [e];
      nextId := nextId + 1;
    }

    /** The atomic findOneAndUpdate of rsvpEvent, as one indivisible step. */
    method FindOneAndPush(eventId: EventId, userId: UserId) returns (updated: Option<Event>)
      requires Valid()
      modifies this
      ensures UniqueIds(events) && IdsBelow(events, nextId) && AllWithinCapacity(events)
      ensures !old(AlreadyAttending(events, eventId, userId)) ==> Valid()
      ensures nextId == old(nextId)
      ensures Step(events, updated) == ConditionalPush(old(events), eventId, userId)
    {
      var r := IndexOf(events, eventId);
      if r.None? {
        return None;
      }
      var k := r.value;
      if |events[k].attendees| < events[k].capacity {
        var e := events[k].(attendees := events[k].attendees + [userId]);
        assert forall j :: 0 <= j < |events| ==> events[k := e][j].id == events[j].id;
        assert WithinCapacity(e);
        events := events[k := e];
        updated := Some(e);
      } else {
        updated := None;
      }
    }

    /** rsvpEvent: the advisory duplicate check, then the atomic update. */
    method Rsvp(eventId: EventId, userId: UserId) returns (r: RsvpResult)
      requires Valid()
      modifies this
      ensures Valid() && nextId == old(nextId)
      ensures Step(events, r) == RsvpStep(old(events), eventId, userId)
    {
      var check := IndexOf(events, eventId);
      if check.Some? && userId in events[check.value].attendees {
        return AlreadyJoined;
      }
      var updated := FindOneAndPush(eventId, userId);
      if updated.None? {
        return FullOrMissing;
      }
      r := Joined(updated.value.id);
    }

    /** deleteEvent: removes the event when the requester is its organizer. */
    method DeleteEvent(eventId: EventId, requester: UserId) returns (r: DeleteResult)
      requires Valid()
      modifies this
      ensures Valid() && nextId == old(nextId)
      ensures Step(events, r) == DeleteStep(old(events), eventId, requester)
    {
      var found := IndexOf(events, eventId);
      if found.None? {
        return EventNotFound;
      }
      var k := found.value;
      if events[k].organizer != requester {
        return NotAuthorized;
      }
      DeletePreservesInvariants(events, nextId, eventId, requester);
      events := events[..k] + events[k + 1..];
      r := Deleted;
    }
  }
}
