/**
  Live server status over one socket per client: snapshots of a chosen set of
  servers followed by field deltas (src/service/server-status-live-service.ts).
 */
module StatusLive {
  import opened Prelude

  datatype Field = QueryData | InfoData | OnlinePlayers | ErrorMessage

  const OPTIONAL_FIELDS: seq<Field> := [QueryData, InfoData, OnlinePlayers, ErrorMessage]

  /** A response; the keys of `fields` are the optional fields that are not undefined. */
  datatype Status = Status(online: bool, lastChecked: string, fields: map<Field, Json>)

  datatype Changes = Changes(
    online: Option<bool>, lastChecked: Option<string>, fields: map<Field, Json>, removedFields: seq<Field>)

  const NO_CHANGES := Changes(None, None, map[], [])

  /** `assignOptionalField` stores a value only when it has the field's type. */
  predicate Assignable(field: Field, value: Json) {
    match field
    case OnlinePlayers => value.Array?
    case ErrorMessage => value.Text?
    case _ => true
  }

  /** The declared type of a response. */
  predicate WellTyped(status: Status) {
    forall field :: field in status.fields ==> Assignable(field, status.fields[field])
  }

  predicate SameField(left: Status, right: Status, field: Field) {
    (field in left.fields <==> field in right.fields)
    && (field in left.fields ==> left.fields[field] == right.fields[field])
  }

  /** The two responses differ at most in `lastChecked`. */
  ghost predicate Agree(left: Status, right: Status) {
    left.online == right.online && left.fields == right.fields
  }

  predicate IsEmpty(changes: Changes) {
    changes.online.None? && changes.lastChecked.None? && changes.fields == map[] && changes.removedFields == []
  }

  /** What a client does with a `server.status.changed` frame. */
  function Apply(held: Status, changes: Changes): Status {
    Status(
      if changes.online.Some? then changes.online.value else held.online,
      if changes.lastChecked.Some? then changes.lastChecked.value else held.lastChecked,
      (held.fields - set field | field in changes.removedFields) + changes.fields)
  }

  /** One turn of the loop over the optional fields. */
  function WithField(changes: Changes, previous: Status, next: Status, field: Field): Changes {
    if field !in next.fields && field in previous.fields then
      changes.(removedFields := changes.removedFields + [field])
    else if field in next.fields && !SameField(previous, next, field) && Assignable(field, next.fields[field]) then
      changes.(fields := changes.fields[field := next.fields[field]])
    else changes
  }

  function DeltaOver(previous: Status, next: Status, fields: seq<Field>): Changes {
    if fields == [] then
      NO_CHANGES.(online := if previous.online != next.online then Some(next.online) else None)
    else
      WithField(DeltaOver(previous, next, fields[..|fields| - 1]), previous, next, fields[|fields| - 1])
  }

  function DeltaOf(previous: Status, next: Status): Changes {
    var changes := DeltaOver(previous, next, OPTIONAL_FIELDS);
    if IsEmpty(changes) then changes else changes.(lastChecked := Some(next.lastChecked))
  }

  method ServerLiveStatusChanges(previous: Status, next: Status) returns (changes: Changes)
    ensures changes == DeltaOf(previous, next)
  {
    changes := NO_CHANGES;
    if previous.online != next.online {
      changes := changes.(online := Some(next.online));
    }
    for i := 0 to |OPTIONAL_FIELDS|
      invariant changes == DeltaOver(previous, next, OPTIONAL_FIELDS[..i]) && changes.lastChecked.None?
    {
      var field := OPTIONAL_FIELDS[i];
      assert OPTIONAL_FIELDS[..i + 1][..i] == OPTIONAL_FIELDS[..i];
      if field !in next.fields && field in previous.fields {
        changes := changes.(removedFields := changes.removedFields + [field]);
      } else if !SameField(previous, next, field) && field in next.fields {
        if Assignable(field, next.fields[field]) {
          changes := changes.(fields := changes.fields[field := next.fields[field]]);
        }
      }
    }
    assert OPTIONAL_FIELDS[..|OPTIONAL_FIELDS|] == OPTIONAL_FIELDS;
    if changes.online.Some? || changes.fields != map[] || |changes.removedFields| > 0 {
      changes := changes.(lastChecked := Some(next.lastChecked));
    }
  }

  /** The field-wise meaning of a delta. */
  ghost predicate DescribesOver(changes: Changes, previous: Status, next: Status, fields: seq<Field>) {
    && changes.online == (if previous.online != next.online then Some(next.online) else None)
    && changes.lastChecked.None?
    && (forall field ::
          field in changes.removedFields <==> field in fields && field in previous.fields && field !in next.fields)
    && (forall field :: field in changes.fields <==>
          field in fields && field in next.fields && !SameField(previous, next, field)
          && Assignable(field, next.fields[field]))
    && forall field :: field in changes.fields ==> changes.fields[field] == next.fields[field]
  }

  lemma {:induction false} DeltaOverDescribes(previous: Status, next: Status, fields: seq<Field>)
    ensures DescribesOver(DeltaOver(previous, next, fields), previous, next, fields)
  {
    if fields != [] {
      var front := fields[..|fields| - 1];
      DeltaOverDescribes(previous, next, front);
      assert forall field :: field in fields <==> field in front || field == fields[|fields| - 1];
    }
  }

  lemma AllFieldsListed(field: Field)
    ensures field in OPTIONAL_FIELDS
  {
    assert OPTIONAL_FIELDS[0] == QueryData && OPTIONAL_FIELDS[1] == InfoData;
    assert OPTIONAL_FIELDS[2] == OnlinePlayers && OPTIONAL_FIELDS[3] == ErrorMessage;
  }

  /** Every field of `next` that differs from `previous` is one the delta can carry. */
  predicate Carried(previous: Status, next: Status) {
    forall field :: field in next.fields && !SameField(previous, next, field) ==> Assignable(field, next.fields[field])
  }

  /**
    A client that agrees with `previous` up to `lastChecked` agrees with `next`
    after the delta, exactly when every changed field has its declared type.
   */
  lemma DeltaReplicatesExactly(held: Status, previous: Status, next: Status)
    requires Agree(held, previous)
    ensures Agree(Apply(held, DeltaOf(previous, next)), next) <==> Carried(previous, next)
  {
    DeltaOverDescribes(previous, next, OPTIONAL_FIELDS);
    var changes := DeltaOf(previous, next);
    var result := Apply(held, changes);
    forall field: Field ensures field in OPTIONAL_FIELDS { AllFieldsListed(field); }
    forall field: Field
      ensures SameField(result, next, field)
        <==> (field in next.fields && !SameField(previous, next, field) ==> Assignable(field, next.fields[field]))
    {
    }
    if Carried(previous, next) {
      assert forall field: Field :: SameField(result, next, field);
      assert result.fields == next.fields;
    } else {
      var field :| field in next.fields && !SameField(previous, next, field) && !Assignable(field, next.fields[field]);
      assert !SameField(result, next, field);
    }
  }

  /** Nothing is sent exactly when the responses agree; a sent delta always carries the new time. */
  lemma EmptyDeltaMeansAgreement(previous: Status, next: Status)
    requires Carried(previous, next)
    ensures IsEmpty(DeltaOf(previous, next)) <==> Agree(previous, next)
    ensures !IsEmpty(DeltaOf(previous, next)) ==> DeltaOf(previous, next).lastChecked == Some(next.lastChecked)
  {
    DeltaOverDescribes(previous, next, OPTIONAL_FIELDS);
    var changes := DeltaOf(previous, next);
    NonemptyHasMember(changes.removedFields);
    DeltaReplicatesExactly(previous, previous, next);
    assert IsEmpty(changes) ==> Apply(previous, changes).fields == previous.fields;
    assert Agree(previous, next) ==> changes.fields.Keys == {};
  }

  /** A change that a delta can carry: `online`, a field that disappears, or a new value of its declared type. */
  predicate HasCarriedChange(previous: Status, next: Status) {
    || previous.online != next.online
    || (exists field :: field in previous.fields && field !in next.fields)
    || exists field :: field in next.fields && !SameField(previous, next, field) && Assignable(field, next.fields[field])
  }

  /** The time a client shows follows the responses exactly when there is a change to send. */
  lemma TimeFollowsExactly(held: Status, previous: Status, next: Status)
    ensures Apply(held, DeltaOf(previous, next)).lastChecked
      == if HasCarriedChange(previous, next) then next.lastChecked else held.lastChecked
  {
    DeltaOverDescribes(previous, next, OPTIONAL_FIELDS);
    forall field: Field ensures field in OPTIONAL_FIELDS { AllFieldsListed(field); }
    var changes := DeltaOver(previous, next, OPTIONAL_FIELDS);
    NonemptyHasMember(changes.removedFields);
    assert changes.fields == map[] <==> forall field :: field !in changes.fields;
  }
}
