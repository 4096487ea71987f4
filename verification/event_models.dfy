/** Events and the bodies that create and change them. */
module EventModels {
  import opened Common

  const MaxTitleLength: nat := 200
  const MaxDescriptionLength: nat := 1000
  const MaxLocationLength: nat := 200
  const MinAttendees: int := 1

  /** A stored event. `created_by` is its owner; `community_id` the community
      it belongs to. Only `end_time`, `description`, `location` and
      `max_attendees` may be null. */
  datatype Event = Event(
    id: Uuid,
    title: string,
    description: Option<string>,
    startTime: Instant,
    endTime: Option<Instant>,
    location: Option<string>,
    isOnline: bool,
    maxAttendees: Option<int>,
    isActive: bool,
    isPublic: bool,
    createdAt: Instant,
    updatedAt: Instant,
    createdBy: Uuid,
    communityId: Uuid)

  /** `EventCreate`, once validated and defaulted. */
  datatype EventCreate = EventCreate(
    title: string,
    description: Option<string>,
    startTime: Instant,
    endTime: Option<Instant>,
    location: Option<string>,
    isOnline: bool,
    maxAttendees: Option<int>,
    isActive: bool,
    isPublic: bool,
    communityId: Uuid)

  /** The JSON body of a create request: each field absent, null or a value. */
  datatype EventCreateBody = EventCreateBody(
    title: Patch<Option<string>>,
    description: Patch<Option<string>>,
    startTime: Patch<Option<Instant>>,
    endTime: Patch<Option<Instant>>,
    location: Patch<Option<string>>,
    isOnline: Patch<Option<bool>>,
    maxAttendees: Patch<Option<int>>,
    isActive: Patch<Option<bool>>,
    isPublic: Patch<Option<bool>>,
    communityId: Patch<Option<Uuid>>)

  /** `EventUpdate`: every field optional; there is no `created_by` and no
      `community_id`, so neither can be changed. */
  datatype EventUpdate = EventUpdate(
    title: Patch<Option<string>>,
    description: Patch<Option<string>>,
    startTime: Patch<Option<Instant>>,
    endTime: Patch<Option<Instant>>,
    location: Patch<Option<string>>,
    isOnline: Patch<Option<bool>>,
    maxAttendees: Patch<Option<int>>,
    isActive: Patch<Option<bool>>,
    isPublic: Patch<Option<bool>>)

  /** An optional string within `max` characters. */
  predicate ValidText(s: Option<string>, max: nat)
  {
    s.Some? ==> |s.value| <= max
  }

  /** `max_attendees`: null, or at least one. */
  predicate ValidAttendees(n: Option<int>)
  {
    n.Some? ==> n.value >= MinAttendees
  }

  /** The field constraints of `EventBase`. Nothing relates `end_time` to
      `start_time`. */
  predicate ValidEventCreate(e: EventCreate)
  {
    && |e.title| <= MaxTitleLength
    && ValidText(e.description, MaxDescriptionLength)
    && ValidText(e.location, MaxLocationLength)
    && ValidAttendees(e.maxAttendees)
  }

  /** The field constraints of `EventUpdate`, on the fields sent. */
  predicate ValidEventUpdate(u: EventUpdate)
  {
    && (u.title.Set? ==> ValidText(u.title.value, MaxTitleLength))
    && (u.description.Set? ==> ValidText(u.description.value, MaxDescriptionLength))
    && (u.location.Set? ==> ValidText(u.location.value, MaxLocationLength))
    && (u.maxAttendees.Set? ==> ValidAttendees(u.maxAttendees.value))
  }

  /** A required non-null field, or a defaulted one that may not be null. */
  function Required<T>(p: Patch<Option<T>>, field: string): Checked<T>
  {
    match p
    case Unset => Fail(field)
    case Set(None) => Fail(field)
    case Set(Some(v)) => Pass(v)
  }

  function Defaulted<T>(p: Patch<Option<T>>, default: T, field: string): Checked<T>
  {
    match p
    case Unset => Pass(default)
    case Set(None) => Fail(field)
    case Set(Some(v)) => Pass(v)
  }

  /** Pydantic validation of an `EventCreate` body: `title`, `start_time` and
      `community_id` are required; the nullable fields default to null,
      `is_online` to false, `is_active` and `is_public` to true. */
  function ParseEventCreate(b: EventCreateBody): (r: Checked<EventCreate>)
    ensures r.Pass? ==> ValidEventCreate(r.value)
    ensures r.Pass? <==>
              && b.title.Set? && b.title.value.Some? && |b.title.value.value| <= MaxTitleLength
              && (b.description.Set? ==> ValidText(b.description.value, MaxDescriptionLength))
              && b.startTime.Set? && b.startTime.value.Some?
              && (b.location.Set? ==> ValidText(b.location.value, MaxLocationLength))
              && b.isOnline != Set(None)
              && (b.maxAttendees.Set? ==> ValidAttendees(b.maxAttendees.value))
              && b.isActive != Set(None) && b.isPublic != Set(None)
              && b.communityId.Set? && b.communityId.value.Some?
    ensures r.Pass? ==> Some(r.value.title) == b.title.value && Some(r.value.startTime) == b.startTime.value
    ensures r.Pass? ==> Some(r.value.communityId) == b.communityId.value
    ensures r.Pass? ==> r.value.description == Patched(b.description, None) && r.value.endTime == Patched(b.endTime, None)
    ensures r.Pass? ==> r.value.location == Patched(b.location, None) && r.value.maxAttendees == Patched(b.maxAttendees, None)
    ensures r.Pass? && b.isOnline.Unset? ==> !r.value.isOnline
    ensures r.Pass? && b.isActive.Unset? ==> r.value.isActive
    ensures r.Pass? && b.isPublic.Unset? ==> r.value.isPublic
  {
    match Required(b.title, "title")
    case Fail(f) => Fail(f)
    case Pass(title) =>
      if |title| > MaxTitleLength then Fail("title")
      else
        var description := Patched(b.description, None);
        if !ValidText(description, MaxDescriptionLength) then Fail("description")
        else match Required(b.startTime, "start_time")
          case Fail(f) => Fail(f)
          case Pass(startTime) =>
            var endTime := Patched(b.endTime, None);
            var location := Patched(b.location, None);
            if !ValidText(location, MaxLocationLength) then Fail("location")
            else match Defaulted(b.isOnline, false, "is_online")
              case Fail(f) => Fail(f)
              case Pass(isOnline) =>
                var maxAttendees := Patched(b.maxAttendees, None);
                if !ValidAttendees(maxAttendees) then Fail("max_attendees")
                else match Defaulted(b.isActive, true, "is_active")
                  case Fail(f) => Fail(f)
                  case Pass(isActive) =>
                    match Defaulted(b.isPublic, true, "is_public")
                    case Fail(f) => Fail(f)
                    case Pass(isPublic) =>
                      match Required(b.communityId, "community_id")
                      case Fail(f) => Fail(f)
                      case Pass(communityId) =>
                        Pass(EventCreate(title, description, startTime, endTime, location, isOnline,
                                         maxAttendees, isActive, isPublic, communityId))
  }

  /** The body that sends every field of `e` explicitly. */
  function EventBodyOf(e: EventCreate): EventCreateBody
  {
    EventCreateBody(Set(Some(e.title)), Set(e.description), Set(Some(e.startTime)), Set(e.endTime),
                    Set(e.location), Set(Some(e.isOnline)), Set(e.maxAttendees), Set(Some(e.isActive)),
                    Set(Some(e.isPublic)), Set(Some(e.communityId)))
  }

  /** Every valid create request can be sent as a body and parses back to itself. */
  lemma ParseEventRoundTrip(e: EventCreate)
    requires ValidEventCreate(e)
    ensures ParseEventCreate(EventBodyOf(e)) == Pass(e)
  {
  }

  /** A body with only the required fields gets the documented defaults. */
  lemma EventDefaults(title: string, startTime: Instant, communityId: Uuid)
    requires |title| <= MaxTitleLength
    ensures ParseEventCreate(EventCreateBody(Set(Some(title)), Unset, Set(Some(startTime)), Unset, Unset,
                                             Unset, Unset, Unset, Unset, Set(Some(communityId))))
              == Pass(EventCreate(title, None, startTime, None, None, false, None, true, true, communityId))
  {
  }

  /** An end before the start is accepted: the models do not order the two. */
  lemma EndBeforeStartAccepted(title: string, startTime: Instant, communityId: Uuid)
    requires |title| <= MaxTitleLength
    ensures ParseEventCreate(EventCreateBody(Set(Some(title)), Unset, Set(Some(startTime)), Set(Some(startTime - 1)),
                                             Unset, Unset, Unset, Unset, Unset, Set(Some(communityId)))).Pass?
  {
  }

  /** Stored fields of an event. */
  datatype EventField = IdField | TitleField | DescriptionField | StartTimeField | EndTimeField
                      | LocationField | IsOnlineField | MaxAttendeesField | IsActiveField | IsPublicField
                      | CreatedAtField | UpdatedAtField | CreatedByField | CommunityIdField

  /** The fields in which two versions of an event differ. */
  function EventChanges(a: Event, b: Event): set<EventField>
  {
    (if a.id != b.id then {IdField} else {})
    + (if a.title != b.title then {TitleField} else {})
    + (if a.description != b.description then {DescriptionField} else {})
    + (if a.startTime != b.startTime then {StartTimeField} else {})
    + (if a.endTime != b.endTime then {EndTimeField} else {})
    + (if a.location != b.location then {LocationField} else {})
    + (if a.isOnline != b.isOnline then {IsOnlineField} else {})
    + (if a.maxAttendees != b.maxAttendees then {MaxAttendeesField} else {})
    + (if a.isActive != b.isActive then {IsActiveField} else {})
    + (if a.isPublic != b.isPublic then {IsPublicField} else {})
    + (if a.createdAt != b.createdAt then {CreatedAtField} else {})
    + (if a.updatedAt != b.updatedAt then {UpdatedAtField} else {})
    + (if a.createdBy != b.createdBy then {CreatedByField} else {})
    + (if a.communityId != b.communityId then {CommunityIdField} else {})
  }

  /** The fields an `EventUpdate` body can touch: those it sets. */
  function EventUpdateTargets(u: EventUpdate): set<EventField>
  {
    (if u.title.Set? then {TitleField} else {})
    + (if u.description.Set? then {DescriptionField} else {})
    + (if u.startTime.Set? then {StartTimeField} else {})
    + (if u.endTime.Set? then {EndTimeField} else {})
    + (if u.location.Set? then {LocationField} else {})
    + (if u.isOnline.Set? then {IsOnlineField} else {})
    + (if u.maxAttendees.Set? then {MaxAttendeesField} else {})
    + (if u.isActive.Set? then {IsActiveField} else {})
    + (if u.isPublic.Set? then {IsPublicField} else {})
  }

  /** A body that writes null into a NOT NULL column, which the database refuses. */
  predicate WritesNull(u: EventUpdate)
  {
    || u.title == Set(None) || u.startTime == Set(None) || u.isOnline == Set(None)
    || u.isActive == Set(None) || u.isPublic == Set(None)
  }

  /** A NOT NULL field of an update: the sent value, or the current one. */
  function Keep<T>(p: Patch<Option<T>>, current: T): (r: T)
    requires p != Set(None)
    ensures p.Set? ==> Some(r) == p.value
    ensures p.Unset? ==> r == current
  {
    if p.Set? then p.value.value else current
  }

  /** `sqlmodel_update` with the set fields plus `updated_at`: only those
      fields can change, so the owner, the community and the id never do. */
  function ApplyEventUpdate(e: Event, u: EventUpdate, now: Instant): (r: Event)
    requires !WritesNull(u)
    ensures EventChanges(e, r) <= EventUpdateTargets(u) + {UpdatedAtField}
    ensures r.updatedAt == now
    ensures u.title.Set? ==> Some(r.title) == u.title.value
    ensures u.description.Set? ==> r.description == u.description.value
    ensures u.startTime.Set? ==> Some(r.startTime) == u.startTime.value
    ensures u.endTime.Set? ==> r.endTime == u.endTime.value
    ensures u.location.Set? ==> r.location == u.location.value
    ensures u.isOnline.Set? ==> Some(r.isOnline) == u.isOnline.value
    ensures u.maxAttendees.Set? ==> r.maxAttendees == u.maxAttendees.value
    ensures u.isActive.Set? ==> Some(r.isActive) == u.isActive.value
    ensures u.isPublic.Set? ==> Some(r.isPublic) == u.isPublic.value
  {
    e.(title := Keep(u.title, e.title),
       description := Patched(u.description, e.description),
       startTime := Keep(u.startTime, e.startTime),
       endTime := Patched(u.endTime, e.endTime),
       location := Patched(u.location, e.location),
       isOnline := Keep(u.isOnline, e.isOnline),
       maxAttendees := Patched(u.maxAttendees, e.maxAttendees),
       isActive := Keep(u.isActive, e.isActive),
       isPublic := Keep(u.isPublic, e.isPublic),
       updatedAt := now)
  }
}
