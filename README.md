# power-stats: a Dafny model of the series builder, tariff classifier and month filter

power-stats is a desktop tool that turns an electricity meter's log of
(timestamp, instantaneous active power) readings into charts for tariff
analysis. This project models three pieces of its sequential logic and
proves what they promise:

- **Time-axis regularizer** (`build_series` in `src-tauri/src/main.rs`).
  A non-empty map from timestamp to power becomes a dense vector with one
  slot per 15 minutes. Slot 0 is the earliest timestamp. The length is
  `(max - min)` in whole minutes, divided by 15, plus one. Each value is
  multiplied by the effective factor and written to slot
  `(k - start) minutes / 15`. Slots that no key maps to stay `0.0`. The
  model (`Regularizer.BuildSeries`) fills an `array<real>` in a loop. It
  visits the keys in an order chosen nondeterministically, because the
  map's iteration order is unspecified. Its result is tied to the
  specification predicate `Regularized`. The two panics (`unwrap` on the
  minimum of an empty key set, and on an absent factor for a primary load)
  become `Failure(EmptyMap)` and `Failure(MissingFactor)`. They are checked
  in that order, as in the source, and both come before the vector is
  allocated.
- **Legacy tariff classifier** (`categorize_by_datetime` in
  `src-tauri/src/lib.rs`). A total function from (month, hour) to
  `Peak | OffPeak | Sharp | Other`. Off-peak hours are the same in every
  month. Months 1, 7, 8 and 11 have "sharp" hours in place of "peak" hours.
- **Month filter** (the eight identical per-series `useMemo` bodies in
  `src/components/FigureZone.tsx`). For the selector `"all"` it returns
  the series unchanged. Otherwise it pushes, in order, every
  (timestamp, value) pair whose characters 5..7 (JavaScript
  `slice(5, 7)`) equal the selector. `MonthFilter.FilterByMonth` models all
  eight copies once.

Timestamps are whole seconds since an epoch. `Duration::num_minutes` and
Rust's `/` on `i64` both round toward zero; the model writes this out as
`TruncDiv`, and `BuildSeries` computes indices and length with exactly the
source's expressions. The specification predicate `Regularized` counts
slots as whole 900-second steps rounded down (`Step`); `SlotIsStep` proves
the two agree for every key at or after the start. Power is `real`.

Files: `Wrappers.dfy` (Option, Result), `Regularizer.dfy`, `Tariff.dfy`,
`MonthFilter.dfy`.

Where the design description and the code differ, the model follows the code:

- The design says a colliding slot keeps "the later write in iteration
  order". The code iterates a map in unspecified order, so `Regularized`
  only says the slot holds the scaled value of some key mapping there.
  `CollisionAnyKey` proves that overwriting the slot of any key with that
  key's scaled value keeps a result admissible, so whichever colliding key
  comes last, the result meets the specification; `CollisionEitherValue`
  is a worked two-key example.
- The design describes a five-category, hour-only classifier.
  `src-tauri/src/lib.rs` defines only the four-category, month-dependent
  `categorize_by_datetime`, and that is what is modelled.

## Model

| member | source | states |
|---|---|---|
| `Regularizer.TruncDiv` | src-tauri/src/main.rs:37-40 | Rust's `/` on `i64`: rounds toward zero, so the result times the divisor lies between zero and the dividend, less than one divisor away from it |
| `Regularizer.NumMinutes` | src-tauri/src/main.rs:37-40 | chrono's `num_minutes()` on a duration in seconds: the whole minutes, the leftover seconds dropped toward zero |
| `Regularizer.SlotOf` | src-tauri/src/main.rs:40 | the index `(k - start).num_minutes() / 15`: for a key at or after the start, the number of whole 900-second steps between them (equal to `Step` by `SlotIsStep`) |
| `Regularizer.DenseLength` | src-tauri/src/main.rs:37 | the length `time_delta.num_minutes() / 15 + 1`: for a non-negative span, one more than the whole 900-second steps in it (bounds of each write by `SlotInRange`) |
| `Regularizer.EffectiveFactor` | src-tauri/src/main.rs:32-36 | fails exactly when the load is primary and no factor is given (`MissingFactor`); otherwise the factor is the caller's for a primary load and exactly 1.0 for any other load |
| `Regularizer.MinOf` | src-tauri/src/main.rs:30 | `map.keys().min()`: a key of the set that is no greater than any other key |
| `Regularizer.MaxOf` | src-tauri/src/main.rs:31 | `map.keys().max()`: a key of the set that is no smaller than any other key |
| `Regularizer.KeyRange` | src-tauri/src/main.rs:30-31 | a scan over a non-empty key set returns its least and greatest keys |
| `Regularizer.SlotIsStep` | src-tauri/src/main.rs:37-40 | for a key at or after the start, the source's truncating `num_minutes() / 15` equals the whole number of 900-second steps rounded down, and so does the dense length minus one |
| `Regularizer.SlotInRange` | src-tauri/src/main.rs:37-41 | every key between the earliest and the latest maps to an index in `[0, len)`, so no write is out of bounds; the earliest key maps to slot 0 and the latest to the last slot |
| `Regularizer.FilledWrite` | src-tauri/src/main.rs:40-41 | writing one more key's scaled value into its slot keeps every touched slot holding some written key's scaled value and every untouched slot at 0.0 |
| `Regularizer.BuildSeries` | src-tauri/src/main.rs:30-42 | an empty map gives `EmptyMap`; otherwise a primary load without a factor gives `MissingFactor`; otherwise the result starts at the earliest key, has length `minutes(max - min) / 15 + 1`, every slot that a key maps to holds the scaled value of one of those keys, and every other slot is exactly 0.0 |
| `Regularizer.SoleOccupant` | src-tauri/src/main.rs:38-42 | a key that shares its slot with no other key leaves exactly `map[k] * factor` in its slot |
| `Regularizer.FirstAndLastSlots` | src-tauri/src/main.rs:30-42 | slot 0 holds the earliest key's scaled value and the last slot the latest key's, when no other key shares those slots |
| `Regularizer.RegularizedUnique` | src-tauri/src/main.rs:37-42 | when every key has a slot of its own, any two results for the same map and factor are equal |
| `Regularizer.CollisionAnyKey` | src-tauri/src/main.rs:38-42 | for every map, factor and key: overwriting that key's slot of a result with the key's own scaled value gives a result again, so whichever colliding key is written last, the specification holds and no write order is fixed |
| `Regularizer.CollisionEitherValue` | src-tauri/src/main.rs:38-42 | a single worked example: for the map {0: 1.0, 60: 2.0} (both keys in slot 0) the one-slot results `[1.0]` and `[2.0]` both satisfy the specification |
| `Regularizer.FactorIsPrescaling` | src-tauri/src/main.rs:32-41 | a result for factor `c` is exactly a result for the input with every value multiplied by `c` and factor 1.0 (both directions) |
| `Regularizer.ScalingLinearity` | src-tauri/src/main.rs:32-41 | multiplying every slot of an unscaled result by `c` gives a result for factor `c` |
| `Tariff.Categorize` | src-tauri/src/lib.rs:28-45 | exact hours of each category: `OffPeak` iff hour < 8 or 11 <= hour < 13 in any month; `Sharp` iff the month is 1, 7, 8 or 11 and 9 <= hour < 11 or 15 <= hour < 17; `Peak` iff the month is any other and 8 <= hour < 11 or 13 <= hour < 17; `Other` iff hour >= 17, or the month is 1, 7, 8 or 11 and the hour is 8, 13 or 14 |
| `Tariff.CategorizeMatchesTable` | src-tauri/src/lib.rs:28-45 | for every month 1-12 and hour 0-23 the classifier agrees with an explicit 24-entry table per kind of month |
| `MonthFilter.Slice` | src/components/FigureZone.tsx:71 | JavaScript `slice` for non-negative bounds: the substring when both bounds are in range, the tail when only the end is past the string, empty when the start is past the string or the range is inverted |
| `MonthFilter.MonthField` | src/components/FigureZone.tsx:71 | `x[i].slice(5, 7)`: characters 5 and 6 of a timestamp of length 7 or more, what is left of them for a shorter one, empty when the text ends before position 5 |
| `MonthFilter.Selected` | src/components/FigureZone.tsx:66-77 | what the loop has pushed after `n` steps: `x` and `y` have equal length, at most `n`, and every kept timestamp carries the selected month |
| `MonthFilter.SelectedIndices` | src/components/FigureZone.tsx:70-75 | the positions the loop keeps are strictly increasing, below `n`, and are exactly the positions whose timestamp carries the month |
| `MonthFilter.SelectedPairs` | src/components/FigureZone.tsx:72-73 | each kept `x` and its `y` are the input pair at the same kept position, so `x` and `y` are pushed together |
| `MonthFilter.SelectedIsSelection` | src/components/FigureZone.tsx:70-75 | the output is the input at strictly increasing positions, each `x` with its own `y`, and a position is kept if and only if its timestamp's characters 5..7 equal the month |
| `MonthFilter.SelectedAllMatching` | src/components/FigureZone.tsx:70-75 | a series whose timestamps all carry the month passes through unchanged |
| `MonthFilter.SelectedIdempotent` | src/components/FigureZone.tsx:70-77 | filtering an already filtered series by the same month returns it unchanged |
| `MonthFilter.FilterByMonth` | src/components/FigureZone.tsx:59-78 | returns the input itself for `"all"`; otherwise returns the loop's order-preserving selection, with `x` and `y` of equal length at most the input's, every timestamp in the selected month |

## Left out

- `get_file_content` (src-tauri/src/lib.rs:18-26): file I/O and character-set detection through a foreign library.
- `map_records`, `build_power_records`, `build_work_records`: called by `build_series`, but their bodies are not part of this model. This covers record parsing, collapsing duplicate timestamps, the power-curve pass with headroom, and the daily energy windows.
- The five-category hour-only classifier: it belongs to `build_power_records`, whose code is not part of this model.
- `greet`, `main`, the `#[tauri::command]` wiring and the `async` on `build_series`: transport only, with no concurrency in the core.
- The serde structs of `src-tauri/src/model.rs`: data shapes with no logic.
- React and Plotly rendering, `useMemo`/`useSelector` wiring, the forms, and the Redux and Pinia stores: UI state, one field assignment each.
- IEEE-754 rounding of `v * factor`: power is a `real`.
- chrono calendar arithmetic: timestamps are integer seconds; hour and month are passed to the classifier directly.
- Regularizer.BuildSeries: returns the filled vector as a value. The model says the `MissingFactor` check comes before allocation only through the order of its body; the contract cannot observe allocation.
- MonthFilter.FilterByMonth: outside the `"all"` case it requires `x` to be no longer than `y`. In JavaScript a shorter `y` would push `undefined`, which a `real` series cannot hold. The model assumes the backend returns `x` and `y` of equal length, as the loop at src/components/FigureZone.tsx:70-74 already assumes when it reads `y[i]` for every index of `x`.
- MonthFilter.FilterByMonth: returns values, so it does not model that `"all"` hands back the same array object (aliasing).
- MonthFilter.Slice: counts characters (Unicode scalar values), not UTF-16 code units as JavaScript does; the two agree on the ASCII `YYYY-MM-DD HH:MM:SS` timestamps the backend produces. The same holds for MonthFilter.MonthField.
