# UTC hour and minute annotation of crontab schedules

This project models the part of django-celery-beat that normalises a crontab
schedule's hour and minute fields to UTC inside a database query. That code is
`django_celery_beat/querysets.py`. Three pieces are modelled:

- **The offset catalog.** `get_timezone_offsets` visits every timezone name
  that the timezone database lists. It stores the current UTC offset of each
  zone that resolves, in seconds and positive east of UTC. It skips each zone
  whose resolution raises. The result is an insertion-ordered dictionary
  (module `OffsetCatalog`).
- **The per-row annotations.** `annotate_with_utc_hour_minute` computes three
  values for each schedule:
  - `offset`: a `Case`/`When` chain over the catalog's keys, with default 0.
  - `utc_hour`: for a plain-number hour field, `(h - Floor(offset / 3600)) mod 24`, cast back to text.
  - `utc_minute`: for a plain-number minute field, `m - Floor(Mod(offset, 3600) / 60)`, cast back to text.

  A field that is not a plain number passes through verbatim. Examples are a
  wildcard, a step, a range or a list (modules `Normalizer` and `Decimal`).
- **The queryset as a whole.** With an empty catalog the queryset comes back
  untouched. Otherwise every row is annotated, and the rows keep their number
  and their order (module `Batch`).

Choices made in the model:

- The database's text test `^\d+$` is modelled as "non-empty and every
  character an ASCII digit".
- The casts between text and integer are modelled as decimal rendering and
  decimal parsing.
- Offsets are integers.
- `/` and `%` are floor division and a non-negative remainder, which is what
  Dafny's operators do for the positive divisors 3600, 60 and 24.

The hour and the minute are each computed from their own field:

- The code does not reduce the shifted minute modulo 60, so a minute below
  the offset's leftover minutes becomes a negative number. With UTC+5:30,
  `"0"` becomes `"-30"` (`Normalizer.MinuteCanBeNegative`), and `"-30"` is
  itself no longer a plain-number field.
- The hour is taken through a single `Mod(…, 24)`. With this model's
  non-negative remainder that is an hour of the day.

A reduced minute is kept as the separately named `Normalizer.UtcMinuteReduced`.
`Normalizer.CombinedUtc` is a reference that shifts the whole time of day at
once, so that a minute borrow reaches the hour. Two lemmas measure the gap
exactly:

- `Normalizer.HourMissesBorrow`: the source's hour misses exactly the one-hour
  borrow.
- `Normalizer.ReducedMinuteIsCombinedMinute`: the reduced minute is the
  combined minute.

For whole-hour offsets and a minute below 60 the two agree
(`Normalizer.WholeHourOffsetsAgree`).

## Model

| member | source | states |
|---|---|---|
| OffsetCatalog.Store | django_celery_beat/querysets.py:24 | assigning a key keeps the key order duplicate-free and in step with the contents; the contents gain exactly that key and value; a new key goes to the end of the key order, an existing key keeps its place |
| OffsetCatalog.Record | django_celery_beat/querysets.py:18-27 | one loop pass keeps the catalog well formed, whether the zone resolved or failed |
| OffsetCatalog.CatalogOf | django_celery_beat/querysets.py:15-28 | the catalog after visiting the zones in order is always well formed |
| OffsetCatalog.CatalogKeys | django_celery_beat/querysets.py:17-27 | a name is a key of the catalog exactly when some zone of that name resolved; failed zones leave no key |
| OffsetCatalog.CatalogValues | django_celery_beat/querysets.py:21-24 | with distinct names, every resolved zone is stored under its own name with its own offset |
| OffsetCatalog.CatalogOrder | django_celery_beat/querysets.py:17-24 | with distinct names, the key order is the order in which the zones resolved |
| OffsetCatalog.CatalogEmpty | django_celery_beat/querysets.py:15-28 | the catalog is empty exactly when no zone resolved |
| OffsetCatalog.GetTimezoneOffsets | django_celery_beat/querysets.py:15-28 | the loop builds exactly the catalog of the zones; its keys are the resolved names and its values their offsets |
| Decimal.DigitsOnlyEverywhere | django_celery_beat/querysets.py:57 | the recursive digits test holds exactly when every character is a digit |
| Decimal.IsAllDigits | django_celery_beat/querysets.py:57 | the `__regex` test `^\d+$` (also at line 77): non-empty and digits only; its meaning per character is stated by `DigitsOnlyEverywhere` |
| Decimal.DecimalValue | django_celery_beat/querysets.py:61 | the integer cast of a digit field (also at line 80); a string of k digits denotes a number below ten to the k |
| Decimal.NatToDecimal | django_celery_beat/querysets.py:58-67 | casting a non-negative integer to text gives canonical digit text, one digit exactly for values below 10 |
| Decimal.IntToDecimal | django_celery_beat/querysets.py:78-84 | casting an integer to text gives digit text exactly when it is not negative, and then the canonical text |
| Decimal.ParseInteger | django_celery_beat/querysets.py:61 | digit text is read as its decimal value; a negative value needs a leading minus sign |
| Decimal.NatToDecimalRoundTrip | django_celery_beat/querysets.py:58-67 | reading back the text of a non-negative integer gives the integer |
| Decimal.DecimalValueRoundTrip | django_celery_beat/querysets.py:58-67 | canonical digit text is the text of its own value |
| Decimal.IntToDecimalRoundTrip | django_celery_beat/querysets.py:78-84 | reading back the text of any integer, negative ones included, gives the integer |
| Normalizer.OffsetCase | django_celery_beat/querysets.py:44-53 | the When chain as written, first matching key wins, default 0; it yields the name's value when the name is a key with a value, and 0 otherwise |
| Normalizer.OffsetCaseIsLookup | django_celery_beat/querysets.py:44-53 | on a catalog the When chain is the dictionary lookup: known names get their offset, unknown names 0 |
| Normalizer.HourShift | django_celery_beat/querysets.py:62 | the hour shift is the offset in whole hours rounded down: 3600 times it is at most the offset and within an hour of it |
| Normalizer.MinuteShift | django_celery_beat/querysets.py:81 | the offset's leftover whole minutes are a minute of the hour |
| Normalizer.OffsetDecomposition | django_celery_beat/querysets.py:62-81 | the hour and minute shifts are the offset's hours and minutes; only its leftover seconds are lost |
| Normalizer.ShiftedHour | django_celery_beat/querysets.py:59-66 | the shifted hour value is an hour of the day |
| Normalizer.ShiftedMinute | django_celery_beat/querysets.py:79-83 | the shifted minute value lies between m - 59 and m |
| Normalizer.ReducedMinute | django_celery_beat/querysets.py:79-83 | the variant reduced modulo 60 is a minute of the hour |
| Normalizer.ShiftedHourUndone | django_celery_beat/querysets.py:59-66 | adding the hour shift back to the shifted hour gives the local hour modulo 24 |
| Normalizer.ShiftedMinuteUndone | django_celery_beat/querysets.py:79-83 | adding the minute shift back gives the local minute exactly, or modulo 60 for the reduced variant; the shifted minute is negative exactly when the local minute is below the shift |
| Normalizer.ShiftedHourRoundTrip | django_celery_beat/querysets.py:59-66 | a whole-hour offset followed by its opposite gives the hour back modulo 24 |
| Normalizer.WholeHourMinute | django_celery_beat/querysets.py:81 | a whole-hour offset has no leftover minutes and leaves the minute value alone |
| Normalizer.UtcHour | django_celery_beat/querysets.py:54-73 | a field that is not a plain number passes through unchanged; a fixed hour gives canonical digit text |
| Normalizer.UtcMinute | django_celery_beat/querysets.py:74-90 | a field that is not a plain number passes through unchanged; a fixed minute gives the text of an integer |
| Normalizer.UtcMinuteReduced | django_celery_beat/querysets.py:74-90 | the reduced variant passes other fields through and gives canonical digit text for a fixed minute |
| Normalizer.UtcHourRange | django_celery_beat/querysets.py:56-69 | a fixed hour gives the canonical text of its shifted hour: below 24, and the local hour again modulo 24 once moved back |
| Normalizer.UtcMinuteRange | django_celery_beat/querysets.py:76-86 | a fixed minute m gives the text of an integer in [m - 59, m] that is m once moved back; the text is a plain number exactly when m is at least the shift |
| Normalizer.UtcMinuteReducedRange | django_celery_beat/querysets.py:76-86 | the reduced variant gives the canonical text of a minute of the hour that is m modulo 60 once moved back |
| Normalizer.Independence | django_celery_beat/querysets.py:62-81 | the hour depends on the offset only through its whole hours, the minute only through its remainder below an hour |
| Normalizer.WholeHourOffsetKeepsMinute | django_celery_beat/querysets.py:78-85 | with a whole-hour offset a fixed minute keeps its value, and canonical minute text is returned unchanged |
| Normalizer.ZeroOffsetIdentity | django_celery_beat/querysets.py:54-90 | with offset 0 a fixed hour below 24 and every fixed minute keep their values; canonical text comes back unchanged |
| Normalizer.HourRoundTrip | django_celery_beat/querysets.py:58-66 | normalising with a whole-hour offset and then with its opposite gives the hour modulo 24 |
| Normalizer.NegatedWholeHours | django_celery_beat/querysets.py:62 | negating a whole-hour offset negates its hour shift |
| Normalizer.MinuteCanBeNegative | django_celery_beat/querysets.py:78-85 | at UTC+5:30 the minute "0" becomes "-30", which is not a plain-number field |
| Normalizer.CombinedUtc | django_celery_beat/querysets.py:54-90 | the reference that shifts the whole time of day gives an hour of the day and a minute of the hour |
| Normalizer.CombinedSplit | django_celery_beat/querysets.py:54-90 | the combined shift is the field-wise shift plus the minute borrow carried into the hour, with the minute reduced modulo 60 |
| Normalizer.CombinedHour | django_celery_beat/querysets.py:58-66 | for a minute of the hour, the combined hour is the shifted hour less one exactly when the minute is below the minute shift |
| Normalizer.ReducedMinuteIsCombinedMinute | django_celery_beat/querysets.py:78-85 | the reduced minute is the combined shift's minute for every fixed minute and offset |
| Normalizer.HourMissesBorrow | django_celery_beat/querysets.py:58-66 | the source's hour differs from the combined hour by exactly the one-hour borrow it drops |
| Normalizer.WholeHourCombined | django_celery_beat/querysets.py:58-85 | for a whole-hour offset and a minute of the hour the combined shift is the shifted hour and the unchanged minute |
| Normalizer.WholeHourOffsetsAgree | django_celery_beat/querysets.py:54-90 | with a whole-hour offset the source's field-wise text is the combined shift's time |
| Normalizer.NewYorkScenario | django_celery_beat/querysets.py:54-90 | at UTC-5, 9 and 30 become "14" and "30" |
| Normalizer.KolkataScenario | django_celery_beat/querysets.py:54-90 | at UTC+5:30, 9 and 0 become "4" and "-30", the reduced minute is "30" and the combined time 03:30 |
| Batch.AnnotateRow | django_celery_beat/querysets.py:44-90 | a row keeps its schedule, its non-numeric fields pass through, and a fixed hour gives canonical text |
| Batch.AnnotateRows | django_celery_beat/querysets.py:91 | annotating a queryset keeps the number and order of rows and annotates each row on its own |
| Batch.Annotate | django_celery_beat/querysets.py:42-91 | the rows come back untouched exactly when the catalog is empty; otherwise each row in order carries its own annotation |
| Batch.AnnotateWithUtcHourMinute | django_celery_beat/querysets.py:41-43 | built from the zones, the result is the annotation with their catalog; the queryset is untouched exactly when no zone resolved |
| Batch.RowUsesCatalogOffset | django_celery_beat/querysets.py:44-53 | a row's offset is its zone's catalog offset or 0, and its hour and minute are computed from that offset |
| Batch.UnknownZoneIsUtc | django_celery_beat/querysets.py:50 | a row whose zone is unknown is read as UTC: canonical hour of the day and minute come back unchanged |
| Batch.KnownZoneShiftsFields | django_celery_beat/querysets.py:44-85 | a row of a known zone with fixed fields gets the hour and minute shifted by its catalog offset |

## Left out

- The ORM is not modelled. A queryset is a sequence of rows, and an
  annotation is a record built for each row. SQL generation, lazy evaluation
  and the field-name parameters (`timezone_field`, `hour_field`,
  `minute_field`, `prefix`) are gone.
- `PeriodicTaskQuerySet.enabled`, `PeriodicTaskQuerySet.with_crontab_utc_hour_minute`
  and `CrontabScheduleQuerySet.with_utc_hour_minute` are left out. They only
  pass field names to the annotation or filter and prefetch through the ORM.
- The timezone database and the clock are not modelled. The list of zone
  names, and for each zone either its offset at the current instant or a
  failure, is an input (`ZoneEntry`).
- Offsets are whole seconds held as integers. `total_seconds()` returns a
  floating-point number, and floating point is not modelled.
- Database-specific arithmetic is not modelled:
  - integer division that truncates toward zero;
  - `MOD` that takes the sign of the dividend;
  - a `$` that also matches before a trailing newline;
  - overflow of the integer cast of a very long digit string.
- NULL fields are not modelled. Rows annotated through a related crontab
  (`crontab__timezone`, `crontab__hour`, `crontab__minute`) can have NULL
  fields, for a periodic task without a crontab. `Schedule` holds plain
  strings, so such rows cannot be represented. The source lets a NULL field
  pass through its `default=F(...)`.
- ShiftedHour: the bound `v < 24` comes from the Euclidean `%` of this model,
  not from the program. A database `MOD` that keeps the dividend's sign gives
  a negative hour whenever h is below `Floor(offset / 3600)`: hour "3" at
  UTC+9 gives -6. `UtcHour`, `UtcHourRange` and `CombinedHour` inherit this.
- ShiftedMinute: the bound `[m - 59, m]` rests on `MinuteShift` lying in
  `[0, 60)`, which also comes from the Euclidean division and remainder. For a
  negative offset with leftover minutes, a database with truncating division
  and a sign-keeping `MOD` computes a non-positive minute shift instead. An
  example is UTC-3:30: the shift is -30, and the minute becomes m + 30.
  `UtcMinuteRange` inherits this.
- The downstream consumer that compares the annotations with the current UTC
  hour and minute is not part of this model.
