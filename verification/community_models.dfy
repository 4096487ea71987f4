/** Communities and the bodies that create and change them. */
module CommunityModels {
  import opened Common

  const MaxNameLength: nat := 100
  const MaxDescriptionLength: nat := 500

  /** A stored community. `created_by` is its owner. */
  datatype Community = Community(
    id: Uuid,
    name: string,
    description: Option<string>,
    isPublic: bool,
    isActive: bool,
    createdAt: Instant,
    updatedAt: Instant,
    createdBy: Uuid)

  /** `CommunityCreate`, once validated and defaulted. */
  datatype CommunityCreate = CommunityCreate(name: string, description: Option<string>, isPublic: bool, isActive: bool)

  /** The JSON body of a create request: each field absent, null or a value. */
  datatype CommunityCreateBody = CommunityCreateBody(
    name: Patch<Option<string>>,
    description: Patch<Option<string>>,
    isPublic: Patch<Option<bool>>,
    isActive: Patch<Option<bool>>)

  /** `CommunityUpdate`: every field optional; there is no `created_by`. */
  datatype CommunityUpdate = CommunityUpdate(
    name: Patch<Option<string>>,
    description: Patch<Option<string>>,
    isPublic: Patch<Option<bool>>,
    isActive: Patch<Option<bool>>)

  predicate ValidDescription(d: Option<string>)
  {
    d.Some? ==> |d.value| <= MaxDescriptionLength
  }

  predicate ValidCommunityCreate(c: CommunityCreate)
  {
    |c.name| <= MaxNameLength && ValidDescription(c.description)
  }

  /** Length limits of `CommunityUpdate`, checked on the fields sent with a value. */
  predicate ValidCommunityUpdate(u: CommunityUpdate)
  {
    && (u.name.Set? && u.name.value.Some? ==> |u.name.value.value| <= MaxNameLength)
    && (u.description.Set? ==> ValidDescription(u.description.value))
  }

  /** A required non-null field, or a defaulted one that may not be null. */
  function RequiredField<T>(p: Patch<Option<T>>, field: string): Checked<T>
  {
    match p
    case Unset => Fail(field)
    case Set(None) => Fail(field)
    case Set(Some(v)) => Pass(v)
  }

  function DefaultedField<T>(p: Patch<Option<T>>, default: T, field: string): Checked<T>
  {
    match p
    case Unset => Pass(default)
    case Set(None) => Fail(field)
    case Set(Some(v)) => Pass(v)
  }

  /** Pydantic validation of a `CommunityCreate` body: `name` is required,
      `description` defaults to null, `is_public` and `is_active` to true. */
  function ParseCommunityCreate(b: CommunityCreateBody): (r: Checked<CommunityCreate>)
    ensures r.Pass? ==> ValidCommunityCreate(r.value)
    ensures r.Pass? <==>
              b.name.Set? && b.name.value.Some? && |b.name.value.value| <= MaxNameLength
              && (b.description.Set? ==> ValidDescription(b.description.value))
              && !(b.isPublic == Set(None)) && !(b.isActive == Set(None))
    ensures r.Pass? ==> Some(r.value.name) == b.name.value
    ensures r.Pass? && b.description.Unset? ==> r.value.description.None?
    ensures r.Pass? && b.isPublic.Unset? ==> r.value.isPublic
    ensures r.Pass? && b.isActive.Unset? ==> r.value.isActive
  {
    match RequiredField(b.name, "name")
    case Fail(f) => Fail(f)
    case Pass(name) =>
      if |name| > MaxNameLength then Fail("name")
      else
        var description := Patched(b.description, None);
        if !ValidDescription(description) then Fail("description")
        else match DefaultedField(b.isPublic, true, "is_public")
          case Fail(f) => Fail(f)
          case Pass(isPublic) =>
            match DefaultedField(b.isActive, true, "is_active")
            case Fail(f) => Fail(f)
            case Pass(isActive) => Pass(CommunityCreate(name, description, isPublic, isActive))
  }

  /** The body that sends every field of `c` explicitly. */
  function CommunityBodyOf(c: CommunityCreate): CommunityCreateBody
  {
    CommunityCreateBody(Set(Some(c.name)), Set(c.description), Set(Some(c.isPublic)), Set(Some(c.isActive)))
  }

  /** Every valid create request can be sent as a body and parses back to itself. */
  lemma ParseCommunityRoundTrip(c: CommunityCreate)
    requires ValidCommunityCreate(c)
    ensures ParseCommunityCreate(CommunityBodyOf(c)) == Pass(c)
  {
  }

  /** A body naming only the community gets the documented defaults. */
  lemma CommunityDefaults(name: string)
    requires |name| <= MaxNameLength
    ensures ParseCommunityCreate(CommunityCreateBody(Set(Some(name)), Unset, Unset, Unset))
              == Pass(CommunityCreate(name, None, true, true))
  {
  }

  /** Stored fields of a community. */
  datatype CommunityField = IdField | NameField | DescriptionField | IsPublicField | IsActiveField
                          | CreatedAtField | UpdatedAtField | CreatedByField

  /** The fields in which two versions of a community differ. */
  function CommunityChanges(a: Community, b: Community): set<CommunityField>
  {
    (if a.id != b.id then {IdField} else {})
    + (if a.name != b.name then {NameField} else {})
    + (if a.description != b.description then {DescriptionField} else {})
    + (if a.isPublic != b.isPublic then {IsPublicField} else {})
    + (if a.isActive != b.isActive then {IsActiveField} else {})
    + (if a.createdAt != b.createdAt then {CreatedAtField} else {})
    + (if a.updatedAt != b.updatedAt then {UpdatedAtField} else {})
    + (if a.createdBy != b.createdBy then {CreatedByField} else {})
  }

  /** The fields a `CommunityUpdate` body can touch: those it sets. */
  function CommunityUpdateTargets(u: CommunityUpdate): set<CommunityField>
  {
    (if u.name.Set? then {NameField} else {})
    + (if u.description.Set? then {DescriptionField} else {})
    + (if u.isPublic.Set? then {IsPublicField} else {})
    + (if u.isActive.Set? then {IsActiveField} else {})
  }

  /** A body that writes null into a NOT NULL column, which the database refuses. */
  predicate WritesNull(u: CommunityUpdate)
  {
    u.name == Set(None) || u.isPublic == Set(None) || u.isActive == Set(None)
  }

  /** `sqlmodel_update` with the set fields plus `updated_at`: only those
      fields can change, so the owner and the id never do. */
  function ApplyCommunityUpdate(c: Community, u: CommunityUpdate, now: Instant): (r: Community)
    requires !WritesNull(u)
    ensures CommunityChanges(c, r) <= CommunityUpdateTargets(u) + {UpdatedAtField}
    ensures r.updatedAt == now
    ensures u.name.Set? ==> Some(r.name) == u.name.value
    ensures u.description.Set? ==> r.description == u.description.value
    ensures u.isPublic.Set? ==> Some(r.isPublic) == u.isPublic.value
    ensures u.isActive.Set? ==> Some(r.isActive) == u.isActive.value
  {
    c.(name := if u.name.Set? then u.name.value.value else c.name,
       description := Patched(u.description, c.description),
       isPublic := if u.isPublic.Set? then u.isPublic.value.value else c.isPublic,
       isActive := if u.isActive.Set? then u.isActive.value.value else c.isActive,
       updatedAt := now)
  }
}
