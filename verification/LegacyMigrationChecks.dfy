/**
  What the aggregate check of the migration can and cannot tell apart
  (`summarizeStatistics` and `sameStatisticAggregates` in src/db/mongodb.ts), and
  how starts follow one another.
 */
module LegacyMigrationChecks {
  import opened Prelude
  import opened LegacyMigration

  const SUMMED := ["sampleCount", "onlineSampleCount", "playerSampleTotal"]

  /** Only a number counts; a field that is missing or holds anything else counts as zero. */
  predicate Counts(record: Record, field: string, amount: real) {
    if field in record.fields && record.fields[field].Number? then record.fields[field] == Number(amount)
    else amount == 0.0
  }

  lemma CountsExactly(record: Record, field: string, amount: real)
    ensures FiniteNumber(record, field) == amount <==> Counts(record, field, amount)
  {
  }

  lemma {:induction false} TotalReplaced(records: seq<Record>, k: nat, record: Record, field: string)
    requires k < |records|
    ensures Total(records[k := record], field)
      == Total(records, field) - FiniteNumber(records[k], field) + FiniteNumber(record, field)
  {
    hide FiniteNumber;
    var replaced, front := records[k := record], records[..|records| - 1];
    if k < |front| {
      assert replaced[..|records| - 1] == front[k := record];
      TotalReplaced(front, k, record, field);
    } else {
      assert replaced[..|records| - 1] == front;
    }
  }

  /** The largest amount of the field in the records, and at least zero. */
  ghost predicate IsMaximum(records: seq<Record>, field: string, maximum: real) {
    && maximum >= 0.0
    && (forall k, amount :: 0 <= k < |records| && Counts(records[k], field, amount) ==> amount <= maximum)
    && (maximum == 0.0 || exists k :: 0 <= k < |records| && Counts(records[k], field, maximum))
  }

  lemma {:induction false} MaximumIsLargest(records: seq<Record>, field: string)
    ensures IsMaximum(records, field, Maximum(records, field))
  {
    if records != [] {
      var front, last := records[..|records| - 1], records[|records| - 1];
      MaximumIsLargest(front, field);
      assert forall k :: 0 <= k < |front| ==> records[k] == front[k];
    }
  }

  lemma MaximumIsOne(records: seq<Record>, field: string, one: real, other: real)
    requires IsMaximum(records, field, one) && IsMaximum(records, field, other)
    ensures one == other
  {
  }

  function WithField(record: Record, field: string, value: Json): Record {
    record.(fields := record.fields[field := value])
  }

  /**
    When one bucket counts differently in one summed field, the check notices exactly when the amounts differ;
    a change of any field that is not summed or compared goes unnoticed.
   */
  lemma OneBucketDiffers(records: seq<Record>, k: nat, field: string, value: Json)
    requires k < |records|
    ensures
      var changed := records[k := WithField(records[k], field, value)];
      && (field in SUMMED ==>
            (SameAggregates(changed, records) <==>
              exists amount :: Counts(records[k], field, amount) && Counts(changed[k], field, amount)))
      && (field !in SUMMED && field != "maxPlayers" ==> SameAggregates(changed, records))
      && (field == "maxPlayers" ==>
            (SameAggregates(changed, records) <==>
              exists maximum :: IsMaximum(records, field, maximum) && IsMaximum(changed, field, maximum)))
  {
    hide Total, Maximum, IsMaximum;
    var record := WithField(records[k], field, value);
    var changed := records[k := record];
    forall other: string
      ensures Total(changed, other) == Total(records, other) - FiniteNumber(records[k], other) + FiniteNumber(record, other)
    {
      TotalReplaced(records, k, record, other);
    }
    assert SUMMED[0] == "sampleCount" && SUMMED[1] == "onlineSampleCount" && SUMMED[2] == "playerSampleTotal";
    if field != "maxPlayers" {
      MaximumUnchanged(records, changed, "maxPlayers");
    } else {
      MaximumIsLargest(records, field);
      MaximumIsLargest(changed, field);
      forall maximum | IsMaximum(records, field, maximum) && IsMaximum(changed, field, maximum)
        ensures maximum == Maximum(records, field) == Maximum(changed, field)
      {
        MaximumIsOne(records, field, maximum, Maximum(records, field));
        MaximumIsOne(changed, field, maximum, Maximum(changed, field));
      }
    }
    CountsExactly(records[k], field, FiniteNumber(records[k], field));
    CountsExactly(record, field, FiniteNumber(record, field));
  }

  lemma {:induction false} MaximumUnchanged(records: seq<Record>, changed: seq<Record>, field: string)
    requires |records| == |changed|
    requires forall k :: 0 <= k < |records| ==> FiniteNumber(records[k], field) == FiniteNumber(changed[k], field)
    ensures Maximum(records, field) == Maximum(changed, field)
  {
    hide FiniteNumber;
    if records != [] {
      MaximumUnchanged(records[..|records| - 1], changed[..|records| - 1], field);
    }
  }

  /** Starts follow one another: what the first ones leave is where the later ones begin. */
  lemma {:induction false} StartsCompose(host: Host, first: seq<Interruption>, second: seq<Interruption>)
    ensures Boots(host, first + second) == Boots(Boots(host, first), second)
    ensures forall one :: Boots(host, [one]) == Boot(host, one)
    decreases |second|
  {
    hide Boot;
    assert forall one: Interruption :: [one][..0] == [];
    if second == [] {
      assert first + second == first;
    } else {
      var front := second[..|second| - 1];
      assert (first + second)[..|first + second| - 1] == first + front;
      StartsCompose(host, first, front);
    }
  }
}
