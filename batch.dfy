/** `annotate_with_utc_hour_minute` over a whole queryset. A queryset is
    modelled as the sequence of its rows, each reduced to the three fields the
    annotation reads: the timezone name and the hour and minute crontab
    fields. Annotating adds `offset`, `utc_hour` and `utc_minute` to every row
    and keeps the rows, their number and their order. */
module Batch {

  import opened Wrappers
  import opened Decimal
  import opened OffsetCatalog
  import opened Normalizer

  /** The fields of one schedule that the annotation reads. */
  datatype Schedule = Schedule(timezone: string, hour: string, minute: string)

  /** A schedule together with the three annotations computed for it. */
  datatype AnnotatedSchedule =
    AnnotatedSchedule(schedule: Schedule, offset: int, utcHour: string, utcMinute: string)

  /** The queryset handed back: the input itself when there is no offset
      catalog, otherwise the annotated rows. */
  datatype Annotation =
    | Unannotated(rows: seq<Schedule>)
    | Annotated(annotated: seq<AnnotatedSchedule>)

  /** The three annotations of one row: the `offset` from the `When` chain
      over the catalog's keys, then the hour and minute computed from that
      offset. A field that is not a plain number is passed through. */
  function AnnotateRow(c: Catalog, s: Schedule): (r: AnnotatedSchedule)
    ensures r.schedule == s
    ensures !IsAllDigits(s.hour) ==> r.utcHour == s.hour
    ensures !IsAllDigits(s.minute) ==> r.utcMinute == s.minute
    ensures IsAllDigits(s.hour) ==> IsCanonical(r.utcHour)
  {
    var o := OffsetCase(c.names, c.offsets, s.timezone);
    AnnotatedSchedule(s, o, UtcHour(s.hour, o), UtcMinute(s.minute, o))
  }

  /** Every row annotated on its own, in order. */
  function AnnotateRows(c: Catalog, rows: seq<Schedule>): (r: seq<AnnotatedSchedule>)
    ensures |r| == |rows|
    ensures forall i :: 0 <= i < |rows| ==> r[i] == AnnotateRow(c, rows[i])
    decreases |rows|
  {
    if rows == [] then []
    else [AnnotateRow(c, rows[0])] + AnnotateRows(c, rows[1..])
  }

  /** The annotation given the catalog: with an empty catalog the queryset
      comes back untouched; otherwise every row is annotated, and the rows
      keep their number and their order. */
  function Annotate(c: Catalog, rows: seq<Schedule>): (r: Annotation)
    ensures r.Unannotated? <==> c.offsets == map[]
    ensures r.Unannotated? ==> r.rows == rows
    ensures r.Annotated? ==>
              && |r.annotated| == |rows|
              && forall i :: 0 <= i < |rows| ==>
                   && r.annotated[i].schedule == rows[i]
                   && r.annotated[i] == AnnotateRow(c, rows[i])
  {
    if c.offsets == map[] then Unannotated(rows)
    else Annotated(AnnotateRows(c, rows))
  }

  /** `annotate_with_utc_hour_minute`: build the catalog from the zones the
      database lists, then annotate. The queryset comes back untouched
      exactly when no zone resolved. */
  method AnnotateWithUtcHourMinute(zones: seq<ZoneEntry>, rows: seq<Schedule>) returns (r: Annotation)
    ensures r == Annotate(CatalogOf(zones), rows)
    ensures r.Unannotated? <==> forall i :: 0 <= i < |zones| ==> zones[i].offset.None?
    ensures r.Unannotated? ==> r.rows == rows
  {
    var c := GetTimezoneOffsets(zones);
    CatalogEmpty(zones);
    if c.offsets == map[] {
      return Unannotated(rows);
    }
    r := Annotated(AnnotateRows(c, rows));
  }

  /** A row's offset is its timezone's catalog offset, or 0 for a name the
      catalog does not know, and the hour and minute are computed from it. */
  lemma RowUsesCatalogOffset(c: Catalog, s: Schedule)
    requires c.Valid()
    ensures s.timezone in c.offsets ==> AnnotateRow(c, s).offset == c.offsets[s.timezone]
    ensures s.timezone !in c.offsets ==> AnnotateRow(c, s).offset == 0
    ensures AnnotateRow(c, s).utcHour == UtcHour(s.hour, LookupOffset(c, s.timezone))
    ensures AnnotateRow(c, s).utcMinute == UtcMinute(s.minute, LookupOffset(c, s.timezone))
  {
    OffsetCaseIsLookup(c, s.timezone);
  }

  /** A row whose timezone the catalog does not know is read as UTC: a
      canonical hour of the day and a canonical minute come back unchanged. */
  lemma UnknownZoneIsUtc(c: Catalog, s: Schedule)
    requires c.Valid() && s.timezone !in c.offsets
    requires IsCanonical(s.hour) && DecimalValue(s.hour) < 24 && IsCanonical(s.minute)
    ensures AnnotateRow(c, s).offset == 0
    ensures AnnotateRow(c, s).utcHour == s.hour
    ensures AnnotateRow(c, s).utcMinute == s.minute
  {
    RowUsesCatalogOffset(c, s);
    ZeroOffsetIdentity(s.hour, s.minute);
  }

  /** A known timezone with fixed fields: the annotated hour is the local
      hour shifted by the catalog offset's whole hours modulo 24, the
      annotated minute the local minute less the offset's leftover minutes. */
  lemma KnownZoneShiftsFields(c: Catalog, s: Schedule)
    requires c.Valid() && s.timezone in c.offsets
    requires IsAllDigits(s.hour) && IsAllDigits(s.minute)
    ensures var o := c.offsets[s.timezone];
            var r := AnnotateRow(c, s);
            && DecimalValue(r.utcHour) == ShiftedHour(DecimalValue(s.hour), o)
            && ParseInteger(r.utcMinute) == Some(ShiftedMinute(DecimalValue(s.minute), o))
  {
    RowUsesCatalogOffset(c, s);
    UtcHourRange(s.hour, c.offsets[s.timezone]);
    UtcMinuteRange(s.minute, c.offsets[s.timezone]);
  }
}
