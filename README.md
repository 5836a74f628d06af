# DLFixedVector and DLDateTime, modelled in Dafny

This project models two parts of `crates/eldenring/src/dlut.rs` from the fromsoftware-rs
crates. These are Rust mirrors of the game's `DLUT` utility types.

- **`DLFixedVector<T, C>`** is a growable sequence with at most `C` elements, all stored
  inline. It has `C` slots that may be uninitialised and a `checked_len` cursor. Its
  `unsafe` reads depend on one invariant: `checked_len <= C`, and exactly the slots below
  `checked_len` are initialised. `push` and `resize` are checked: when they fail, they hand
  the refused value back in `Err` and change nothing. `truncate` (and `drop`, which is
  `truncate(0)`) destroys the elements it removes, one at a time in index order.
- **`DLDateTime`** holds one civil date and time in two forms. `time64` is a Windows
  FILETIME (100-nanosecond intervals since 1601-01-01), computed with the Gregorian
  leap-year rule and a days-before-month table. `date` is a `PackedDate`: the same fields
  as bit fields of a `u64`.

Files:

- `wrappers.dfy`: `Option` and `Result`.
- `fixed_vector.dfy`, module `FixedVector`: the class `DLFixedVector<T>`.
  - `capacity` is the const generic `C`.
  - `elements` is an `array<Option<T>>`, where `None` marks an uninitialised slot.
  - `checkedLen` is the cursor.
  - The ghost `Contents` holds the live elements.
  - The ghost `Dropped` logs every element the vector destroyed, in order.
  - `Valid()` is the invariant above. Every method except `DropTail` preserves it:
    `DropTail` is `truncate`'s loop, which clears slots `[lo, len)` before the cursor is
    lowered.
  - Dropping a slot reads its value. That read is the proof that the slot is initialised,
    which is the obligation `assume_init_drop` puts on the Rust code. The slot then
    becomes `None`.
  - `SourceAsSlice` is `as_slice` as written, including its `elements[0]` index; see
    "Findings". `ZeroCapacityScenario` is a client of a vector with no slots.
  - `CapacityThreeScenario` and `ShrinkAndRegrowScenario` are a client: push A, B, C; a
    fourth push fails with D; truncate(1) destroys B, C; resize(3, Z) gives
    `[A, Z, Z]`; drop destroys A, Z, Z, so the log reads B, C, A, Z, Z.
- `date_time.dfy`, module `DateTime`:
  - `DaysSince1601` and `CalculateTime64` model the code as written. `i64` division
    rounds toward zero. Every `u64` step keeps its low 64 bits, as release builds do.
  - An independent reference calendar counts days one year and one month at a time.
    Lemmas connect it to the code's closed formula.
  - `PackedDate` is a `bv64` with one getter and one setter per field, using that
    field's shifts and mask.
  - `New` is `DLDateTime::new`.

Two edge cases of the code, which the model keeps:

- `resize` shrinks only when `new_len < len` (line 253). At `new_len == len` it runs
  the fill loop over an empty range (lines 256-259), so the vector stays unchanged.
- `calculate_time64` accepts a month of 0, which reads table entry 0 and counts like
  January. A month above 12 indexes past the table and panics.

## Model

| member | source | states |
|---|---|---|
| `FixedVector.DLFixedVector.constructor` | crates/eldenring/src/dlut.rs:167-175 | `default()`: the invariant holds, every slot is uninitialised, the length is 0 and nothing has been dropped |
| `FixedVector.DLFixedVector.Len` | crates/eldenring/src/dlut.rs:178-180 | `len()` is the number of live elements; it never exceeds `C` |
| `FixedVector.DLFixedVector.IsEmpty` | crates/eldenring/src/dlut.rs:182-184 | `is_empty()` holds exactly when there are no live elements |
| `FixedVector.DLFixedVector.Capacity` | crates/eldenring/src/dlut.rs:186-188 | `capacity()` is the number of slots, `C`, and bounds the length |
| `FixedVector.DLFixedVector.AsSlice` | crates/eldenring/src/dlut.rs:190-198 | `as_slice()` is exactly the live elements, read from the initialised prefix `[0, checked_len)`, for every `C` including 0 (the intended behaviour; see Findings) |
| `FixedVector.SourceAsSlice` | crates/eldenring/src/dlut.rs:190-198 | `as_slice()` as written: it panics (`None`) exactly when there is no slot, since it indexes `elements[0]`; otherwise it returns the initialised prefix `[0, checked_len)` |
| `FixedVector.SourceAsSliceAgrees` | crates/eldenring/src/dlut.rs:190-198 | on slots whose prefix holds the live elements, the code's `as_slice` returns exactly those elements when `C > 0` and panics when `C == 0` |
| `FixedVector.SourceAsSliceOfVector` | crates/eldenring/src/dlut.rs:190-198 | for every valid vector, the code's `as_slice` equals `AsSlice()` when `C > 0` and panics when `C == 0` |
| `FixedVector.Unwrap` | crates/eldenring/src/dlut.rs:195-196 | reading a run of initialised slots as values keeps its length, and each value is the one its slot holds |
| `FixedVector.DLFixedVector.Index` | crates/eldenring/src/dlut.rs:266-272 | `index(i)` is defined only for `i < len()` and returns live element `i` |
| `FixedVector.DLFixedVector.SetAt` | crates/eldenring/src/dlut.rs:274-278 | a store through `index_mut(i)` replaces live element `i`, drops the old element once, and keeps the length and the invariant |
| `FixedVector.DLFixedVector.Push` | crates/eldenring/src/dlut.rs:220-229 | succeeds exactly when `len < C`. On success the element is appended at index `prev_len`, the length grows by one and earlier slots are unchanged. When full it returns `Err(value)` with the same value and changes nothing. It never drops an element |
| `FixedVector.DLFixedVector.Truncate` | crates/eldenring/src/dlut.rs:233-242 | the length becomes `min(k, prev_len)` and the prefix is unchanged. Exactly the elements at `[k, prev_len)` are dropped, each once, in increasing index order, and only initialised slots are touched. `k >= prev_len` changes nothing |
| `FixedVector.DLFixedVector.DropTail` | crates/eldenring/src/dlut.rs:236-239 | drops the live elements at `[lo, len)` once each, in index order, and leaves those slots uninitialised; the cursor and `Contents` are unchanged, and the invariant holds again only after `Truncate` lowers the cursor |
| `FixedVector.DLFixedVector.Resize` | crates/eldenring/src/dlut.rs:248-263 | succeeds exactly when `n <= C`; `n > C` returns `Err(value)` and changes nothing. `n < len` acts exactly as `truncate(n)`. Otherwise the length becomes `n`, slots `[old_len, n)` hold `value`, earlier slots are unchanged and nothing is dropped |
| `FixedVector.DLFixedVector.Drop` | crates/eldenring/src/dlut.rs:280-284 | dropping the vector destroys every live element exactly once, in index order, and leaves it empty |
| `DateTime.IsLeapYear` | crates/eldenring/src/dlut.rs:128-130 | `is_leap_year`: the Gregorian rule itself; its use as a leap-year count is stated by `LeapYearCount` and `DaysBeforeMonthTable` |
| `DateTime.DaysSince1601` | crates/eldenring/src/dlut.rs:131-143 | `days_since_1601` as written, with truncating `i64` division; requires month <= 12 (a larger month panics on the table index); its meaning is stated by `DaysSince1601IsCivilDays`, `MonthZeroIsJanuary` and `BeforeEpochNotADayCount` |
| `DateTime.BeforeEpochNotADayCount` | crates/eldenring/src/dlut.rs:134-141 | before 1601 the formula is no day count: 1600-12-31 gives 0, the same as 1601-01-01 |
| `DateTime.CalculateTime64` | crates/eldenring/src/dlut.rs:119-156 | `calculate_time64` as written, every `u64` step wrapping; requires month <= 12; its meaning is stated by `CalculateTime64Wraps` and `CalculateTime64IsFileTime` |
| `DateTime.PackFields` | crates/eldenring/src/dlut.rs:75-83 | the setter sequence of `new` on a zero `PackedDate`; what each field then reads is stated by `PackedYear` … `PackedIsUtc` |
| `DateTime.New` | crates/eldenring/src/dlut.rs:65-89 | `DLDateTime::new`; requires month <= 12 (a larger month panics in `calculate_time64`); its meaning is stated by `NewFields` and `NewTime64` |
| `DateTime.PackedDate.Year` | crates/eldenring/src/dlut.rs:40 | getter of bits 0..=11; with `SetYear`, read back by `PackedYear` |
| `DateTime.PackedDate.SetYear` | crates/eldenring/src/dlut.rs:40 | setter of bits 0..=11; on any record stated by `SetYearGet` |
| `DateTime.SetYearGet` | crates/eldenring/src/dlut.rs:40 | for any packed date `p`, `p.set_year(v)` reads back `v & 0xFFF` in bits 0..=11, and every other field of `p` keeps its value |
| `DateTime.PackedDate.Millisecond` | crates/eldenring/src/dlut.rs:41 | getter of bits 12..=21; stated by `PackedMillisecond` |
| `DateTime.PackedDate.SetMillisecond` | crates/eldenring/src/dlut.rs:41 | setter of bits 12..=21; on any record stated by `SetMillisecondGet` |
| `DateTime.SetMillisecondGet` | crates/eldenring/src/dlut.rs:41 | for any packed date `p`, `p.set_millisecond(v)` reads back `v & 0x3FF` in bits 12..=21, and every other field of `p` keeps its value |
| `DateTime.PackedDate.Month` | crates/eldenring/src/dlut.rs:43 | getter of bits 22..=25; stated by `PackedMonth` |
| `DateTime.PackedDate.SetMonth` | crates/eldenring/src/dlut.rs:43 | setter of bits 22..=25; on any record stated by `SetMonthGet` |
| `DateTime.SetMonthGet` | crates/eldenring/src/dlut.rs:43 | for any packed date `p`, `p.set_month(v)` reads back `v & 0xF` in bits 22..=25, and every other field of `p` keeps its value |
| `DateTime.PackedDate.DayOfWeek` | crates/eldenring/src/dlut.rs:44 | getter of bits 26..=28; `PackedDayOfWeek` states it reads 0 after `new` |
| `DateTime.PackedDate.SetDayOfWeek` | crates/eldenring/src/dlut.rs:44 | setter of bits 26..=28; on any record stated by `SetDayOfWeekGet` |
| `DateTime.SetDayOfWeekGet` | crates/eldenring/src/dlut.rs:44 | for any packed date `p`, `p.set_day_of_week(v)` reads back `v & 0x7` in bits 26..=28, and every other field of `p` keeps its value |
| `DateTime.PackedDate.Day` | crates/eldenring/src/dlut.rs:45 | getter of bits 29..=33; stated by `PackedDay` |
| `DateTime.PackedDate.SetDay` | crates/eldenring/src/dlut.rs:45 | setter of bits 29..=33; on any record stated by `SetDayGet` |
| `DateTime.SetDayGet` | crates/eldenring/src/dlut.rs:45 | for any packed date `p`, `p.set_day(v)` reads back `v & 0x1F` in bits 29..=33, and every other field of `p` keeps its value |
| `DateTime.PackedDate.Hours` | crates/eldenring/src/dlut.rs:46 | getter of bits 34..=38; stated by `PackedHours` |
| `DateTime.PackedDate.SetHours` | crates/eldenring/src/dlut.rs:46 | setter of bits 34..=38; on any record stated by `SetHoursGet` |
| `DateTime.SetHoursGet` | crates/eldenring/src/dlut.rs:46 | for any packed date `p`, `p.set_hours(v)` reads back `v & 0x1F` in bits 34..=38, and every other field of `p` keeps its value |
| `DateTime.PackedDate.Minutes` | crates/eldenring/src/dlut.rs:47 | getter of bits 39..=44; stated by `PackedMinutes` |
| `DateTime.PackedDate.SetMinutes` | crates/eldenring/src/dlut.rs:47 | setter of bits 39..=44; on any record stated by `SetMinutesGet` |
| `DateTime.SetMinutesGet` | crates/eldenring/src/dlut.rs:47 | for any packed date `p`, `p.set_minutes(v)` reads back `v & 0x3F` in bits 39..=44, and every other field of `p` keeps its value |
| `DateTime.PackedDate.Seconds` | crates/eldenring/src/dlut.rs:48 | getter of bits 45..=50; stated by `PackedSeconds` |
| `DateTime.PackedDate.SetSeconds` | crates/eldenring/src/dlut.rs:48 | setter of bits 45..=50; on any record stated by `SetSecondsGet` |
| `DateTime.SetSecondsGet` | crates/eldenring/src/dlut.rs:48 | for any packed date `p`, `p.set_seconds(v)` reads back `v & 0x3F` in bits 45..=50, and every other field of `p` keeps its value |
| `DateTime.PackedDate.IsUtc` | crates/eldenring/src/dlut.rs:49 | getter of bit 51; stated by `PackedIsUtc` |
| `DateTime.PackedDate.SetIsUtc` | crates/eldenring/src/dlut.rs:49 | setter of bit 51; on any record stated by `SetIsUtcGet` |
| `DateTime.SetIsUtcGet` | crates/eldenring/src/dlut.rs:49 | for any packed date `p`, `p.set_is_utc(v)` reads back `v` in bit 51, and every other field of `p` keeps its value |
| `DateTime.DLDateTime.Year` | crates/eldenring/src/dlut.rs:91-93 | reads the packed year; after `new`, stated by `NewFields` |
| `DateTime.DLDateTime.Month` | crates/eldenring/src/dlut.rs:95-97 | reads the packed month; after `new`, stated by `NewFields` |
| `DateTime.DLDateTime.Day` | crates/eldenring/src/dlut.rs:99-101 | reads the packed day; after `new`, stated by `NewFields` |
| `DateTime.DLDateTime.Hours` | crates/eldenring/src/dlut.rs:103-105 | reads the packed hours; after `new`, stated by `NewFields` |
| `DateTime.DLDateTime.Minutes` | crates/eldenring/src/dlut.rs:107-109 | reads the packed minutes; after `new`, stated by `NewFields` |
| `DateTime.DLDateTime.Seconds` | crates/eldenring/src/dlut.rs:111-113 | reads the packed seconds; after `new`, stated by `NewFields` |
| `DateTime.DLDateTime.IsUtc` | crates/eldenring/src/dlut.rs:115-117 | reads the packed UTC flag; after `new`, stated by `NewFields` |
| `DateTime.LeapYearCount` | crates/eldenring/src/dlut.rs:134-136 | for a year from 1601 on, the `/4 - /100 + /400` term (with truncating `i64` division) equals the number of leap years in `[1601, year)` |
| `DateTime.LeapShift` | crates/eldenring/src/dlut.rs:128-130 | proof step of `LeapYearCount`: `is_leap_year` of `k + 1600` is the Gregorian rule applied to `k` |
| `DateTime.DaysBeforeYearCount` | crates/eldenring/src/dlut.rs:134-136 | the days before January 1 of a year are 365 per whole year since 1601 plus one per leap year |
| `DateTime.DaysBeforeMonthTable` | crates/eldenring/src/dlut.rs:132-133 | `DAYS_BEFORE_MONTH[m]` is the running total of month lengths before month `m`; in a leap year one is added after February, as lines 139-141 do |
| `DateTime.DaysSince1601IsCivilDays` | crates/eldenring/src/dlut.rs:131-143 | for year >= 1601 and month in 1..=12, `days_since_1601(y, m, d)` equals the number of days from 1601-01-01 to y-m-d |
| `DateTime.MonthZeroIsJanuary` | crates/eldenring/src/dlut.rs:137 | month 0 is accepted and reads table entry 0, giving the same day count as January |
| `DateTime.CivilDaysConsecutive` | crates/eldenring/src/dlut.rs:131-143 | the reference day count moves by one from each month's last day to the next month's first day, and from December 31 to January 1 |
| `DateTime.CalculateTime64Wraps` | crates/eldenring/src/dlut.rs:145-155 | the step-by-step `u64` computation equals `((days*86400 + h*3600 + min*60 + s) * 10_000_000 + ms*10_000)` reduced once modulo 2^64 |
| `DateTime.CalculateTime64IsFileTime` | crates/eldenring/src/dlut.rs:119-156 | for years 1601..=60054, months 1..=12 and days >= 1, `calculate_time64` equals that FILETIME value for the civil date, with no wrap-around |
| `DateTime.EpochIsZero` | crates/eldenring/src/dlut.rs:131-155 | 1601-01-01 is day 0 of `days_since_1601`, and 1601-01-01 00:00:00.000 is FILETIME 0 |
| `DateTime.PackedYear` | crates/eldenring/src/dlut.rs:40 | year occupies bits 0..=11: after `new`'s setters the getter returns the value cut to 12 bits |
| `DateTime.PackedMillisecond` | crates/eldenring/src/dlut.rs:41 | millisecond occupies bits 12..=21 and reads back cut to 10 bits |
| `DateTime.PackedMonth` | crates/eldenring/src/dlut.rs:43 | month occupies bits 22..=25 and reads back cut to 4 bits |
| `DateTime.PackedDayOfWeek` | crates/eldenring/src/dlut.rs:44 | day_of_week occupies bits 26..=28; `new` never sets it, and no other setter disturbs it, so it reads 0 |
| `DateTime.PackedDay` | crates/eldenring/src/dlut.rs:45 | day occupies bits 29..=33 and reads back cut to 5 bits |
| `DateTime.PackedHours` | crates/eldenring/src/dlut.rs:46 | hours occupies bits 34..=38 and reads back cut to 5 bits |
| `DateTime.PackedMinutes` | crates/eldenring/src/dlut.rs:47 | minutes occupies bits 39..=44 and reads back cut to 6 bits |
| `DateTime.PackedSeconds` | crates/eldenring/src/dlut.rs:48 | seconds occupies bits 45..=50 and reads back cut to 6 bits |
| `DateTime.PackedIsUtc` | crates/eldenring/src/dlut.rs:49 | is_utc is bit 51 and reads back unchanged |
| `DateTime.NewFields` | crates/eldenring/src/dlut.rs:65-117 | every getter of `DLDateTime::new(...)` returns its argument's low bits, and exactly its argument when that fits the field (year 12 bits, millisecond 10, month 4, day 5, hours 5, minutes 6, seconds 6, is_utc 1); day_of_week is left 0 |
| `DateTime.NewTime64` | crates/eldenring/src/dlut.rs:85-88 | for a date from 1601 to 60054, the `time64` of `DLDateTime::new(...)` is the FILETIME of that civil date and time of day |

## Findings

| source | as written | input that shows it | evidently intended | confidence | as-written member | corrected member |
|---|---|---|---|---|---|---|
| crates/eldenring/src/dlut.rs:196 | `as_slice` takes `self.elements[0].as_ptr()`, which is bounds-checked even for an empty slice | any `DLFixedVector<T, 0>`, for example `len()` right after `default()` | the empty slice, as `self.elements.as_ptr()` would give | high, not executed | `FixedVector.SourceAsSlice`, `FixedVector.SourceAsSliceOfVector` | `FixedVector.DLFixedVector.AsSlice` |

## Left out

- `DLAutoDeletePtr` (lines 286-355) is left out. It is a thin wrapper over foreign
  allocator calls (`allocate_aligned`, `get_heap_allocator_of`, `deallocate` from
  `crate::dlkr`, which is not part of this model) and raw pointers. `try_new` reads the
  game's allocator from a hard-coded image address. `Send`/`Sync` are concurrency markers.
- `DLReferenceCountObjectBase` and `DLReferenceCountObjectVmt` (lines 17-33) are left out.
  They are only a `repr(C)` layout and a vtable declaration; the file has no counting or
  teardown logic to model.
- Memory layout is not modelled: `repr(C)`, the `unk1` field, `MaybeUninit` and
  `slice::from_raw_parts`. A slot is either initialised (`Some`) or not (`None`).
- `as_mut_slice`, `iter` and `iter_mut` lend references into the storage, and borrows are
  not modelled. A store through a mutable reference is modelled by `SetAt`. Iteration
  visits `AsSlice()` in order.
- FixedVector.DLFixedVector.AsSlice: follows the intended `as_slice` for `C == 0` (the
  empty slice). As written, a `C == 0` vector panics in every operation except `capacity`
  and `resize(n > 0, _)`, including its own `drop`, because line 196 indexes
  `elements[0]`: `len`, `is_empty`, `index`, `push`, `truncate` and `resize(0, _)` all
  reach it. `Len`, `IsEmpty`, `Index`, `Push`, `Truncate`, `Resize` and `Drop` model the
  intended behaviour; `SourceAsSlice` models the panic.
- `Index`: an out-of-range index makes Rust's slice index panic. Panics are not modelled,
  so the index is a precondition. The same holds for a month above 12 in
  `CalculateTime64` and `New`.
- `Resize` models `T::clone` as copying the value. Rust also drops the fill value itself
  when `resize` returns. That value was never an element of the vector, so it is not
  logged in `Dropped`.
- `Push` treats `prev_len + 1` as exact, and here the model's `Err` differs from the source
  in one case. A zero-sized `T` allows `C == usize::MAX` (for example
  `DLFixedVector<(), {usize::MAX}>`), and `resize(usize::MAX, ())` fills such a vector.
  A following `push` then overflows `prev_len + 1` (line 222). A debug build panics there.
  A release build wraps to 0, passes the check, and panics on `elements[usize::MAX]`.
  The model returns `Err(value)` instead.
- A panic raised inside an element's destructor is not modelled. Unwinding out of
  `truncate` is outside the model.
- `CalculateTime64`: debug builds panic on `u64` overflow; the model follows release
  builds, which wrap. A year below 1601 (or day 0 of January 1601) gives a value that is
  not a day count. It can be negative, zero or positive: 1600-12-31 gives 0, the same
  as 1601-01-01 (`BeforeEpochNotADayCount`). The model computes that value and casts it
  to `u64` by two's complement, as the code does.
- `CalculateTime64IsFileTime` is stated only for years up to 60054. That is the last year
  in which no `u8`/`u16` field value can overflow `u64`. From year 60055 on, large field
  values overflow, and `CalculateTime64Wraps` gives the wrapped value.
- `NewTime64` has the same bound of year 60054, for the same reason.
- The `bitfield`, `pelite` and `vtable_rs` crates are not part of this model. The getters
  and setters follow the `bitfield` macro's accessor scheme. A getter shifts its field to
  the top of the `u64` and back down. A setter clears the field and ORs in the value,
  masked to the field's width. The `Debug` implementations are left out.
