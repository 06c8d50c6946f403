# Datastore seeding tool, modelled in Dafny

The program is a small command-line tool (`main.go`) that seeds a cloud
document datastore. It generates a fixed number of synthetic records,
writes them in batches under a configured kind and namespace, and then asks
the store how many records of that kind the namespace holds. This project
models the part of the tool that is its own logic:

- **Record generator** (`create_item`, `create_entities`). Records 1 .. count
  are built in order. Record `i` has the key name `"id"` followed by `i` in
  decimal, the email `<name>@email.com`, the given kind and namespace, the
  boolean field set to true, a timestamp from the clock and a random token.
- **Batch writer** (`fillEnities`). The writer takes one key per record and
  checks that the key list has as many entries as the record list. It then
  walks both lists in windows `[index, min(index + 500, n))`, issuing one
  multi-put per window. It stops at the first write the store refuses.
- **Entry point** (`main`). It rejects an empty project name, namespace or
  kind, in that order, before anything else happens. It then connects, seeds
  10 records and runs the count query.

Module layout:

- `Faults` holds the fatal conditions. Each of them is a panic in the
  program and a value here.
- `Decimal` holds the decimal rendering that `%v` gives a non-negative int.
- `Items` holds the generator.
- `Batch` holds the batch writer and its windowing plan.
- `Entry` holds `main`.

The loops of the program stay loops. `Items.CreateEntities`,
`Batch.ExtractKeys` and `Batch.PutInChunks` are methods with `while`/`for`
loops. Each is proved against a specification function:

- `Entities` for the generated list.
- `Ids` for the key list.
- `Windows` for the submission plan.
- `SubmitFrom` and the predicate `Reports` for a run of the submission loop.

The store, the clock and the random-token generator are outside the
program. They appear as parameters:

- `rejects(window, keys, entities)` decides whether the store refuses the
  multi-put of one window. The window is part of the question, so equal
  contents may get different answers on different calls.
- `yesterday(i)` and `uuids(i)` are the timestamp and token drawn while
  record `i` is built.
- `connected`, `queryFails` and `stored` stand for the client creation and
  the count query.

The code accepts a count of 0. It then generates no record and makes no
write call, and the model covers that case.

## Model

| member | source | states |
|---|---|---|
| Decimal.Render | main.go:47 | The decimal text of a number is non-empty and all digits. It starts with '0' only for 0, and is one character long exactly for numbers below 10. |
| Decimal.ValueOfRender | main.go:47 | Reading the decimal text back gives the number again (round trip). |
| Decimal.RenderInjective | main.go:47 | Two numbers have the same decimal text if and only if they are equal. |
| Items.KeyNameInjective | main.go:46-47 | The key names `"id" + i` of two record numbers are equal if and only if the numbers are. |
| Items.EntityNamesDistinct | main.go:43-53 | The generated records have pairwise distinct key names. |
| Items.CreateEntities | main.go:29-53 | The loop returns exactly `count` records in order. Record j has the key (kind, "id"+decimal(j+1), namespace) and the email `name + "@email.com"`. Its boolean field is true and its timestamp and token are those drawn on step j+1. Key names are pairwise distinct. |
| Batch.ExtractKeys | main.go:60-67 | The key list is `Ids(entities)`: one key per entity, in order, `keys[j]` being entity j's key. |
| Batch.FillEntities | main.go:55-82 | The keys always match the entities, so the "invalid size" panic cannot fire. The run over the generated records behaves as `Reports` describes. |
| Batch.WindowsFrom | main.go:73-77 | From `index` on, every window lies in `[index, n]` and holds between 1 and `limit` elements. |
| Batch.WindowsFromEnds | main.go:73-77 | The windows from `index` on are empty if and only if `index >= n`. Otherwise the first starts at `index` and the last ends at `n`. |
| Batch.WindowsFromContiguous | main.go:73-77 | Each window starts where the previous one ends, and all but the last hold exactly `limit` elements. |
| Batch.WindowsFromOrdered | main.go:73-77 | No window overlaps a later one. |
| Batch.WindowsFromCount | main.go:73-77 | From `index` on there are ceil((n - index) / limit) windows. |
| Batch.GatherAppend | main.go:73-78 | Gathering one more window appends exactly that window's elements. |
| Batch.PlanPrefixStep | main.go:73-77 | The first m windows of the plan lie in the list, and window m starts where the first m-1 end. |
| Batch.GatherPlanPrefix | main.go:73-78 | The first m windows together select exactly the list's prefix up to the end of the last of them, in order. |
| Batch.WindowsCover | main.go:73-78 | Concatenating the slices of all windows gives back the whole list. |
| Batch.WindowsPartition | main.go:56-77 | The plan for n elements is empty if and only if n = 0. It starts at 0 and ends at n. The windows hold 1..limit elements each, are contiguous and in increasing order, and there are ceil(n / limit) of them. |
| Batch.TenRecordsOneCall | main.go:56-77 | 10 records go out in a single window [0, 10). |
| Batch.TwelveHundredRecordsThreeCalls | main.go:56-77 | 1200 records go out as [0, 500), [500, 1000) and [1000, 1200). |
| Batch.SubmitFromReports | main.go:73-81 | A loop that has followed the plan with every write accepted ends as `Reports` says. The calls are a prefix of the plan. The run passes if and only if every window of the plan is accepted, and then all windows were submitted. Otherwise the last call was refused, every earlier call was accepted, no later window was tried, and the fault names the refused window. |
| Batch.SubmittedRecords | main.go:73-81 | After a run, the calls submitted exactly the keys and records from the start up to the end of the last call, in order. A passing run submitted the whole list in ceil(n / 500) calls. |
| Batch.PutInChunks | main.go:73-81 | The submission loop's log and outcome are those of `SubmitFrom`, and they satisfy `Reports`: prefix of the plan, pass if and only if all windows are accepted, stop at the first refused write. |
| Entry.CheckFlags | main.go:106-116 | The checks pass if and only if all three values are non-empty. An empty project name is reported first, then an empty namespace, then an empty kind. Each fault arises exactly under its own condition. |
| Entry.Run | main.go:95-126 | An empty flag or a failed connection stops the run with no write. Once connected, the 10 records go out in one multi-put [0, 10). A refused write fails with that window, and a failed query fails with the query fault. Otherwise the run yields the count the store reports. |

## Left out

- Flag parsing and the flag defaults ("my_project", "my_namespace",
  "item_kind"). The three values are parameters of `Entry.Run`.
- `datastore.NewClient`, the internals of `PutMulti` and
  `RunAggregationQuery`. Their outcomes are parameters (`connected`,
  `rejects`, `queryFails`, `stored`).
- Entry.Run: does not relate the count the query reports to what the store
  holds, because the store's contents are not modelled.
- `uuid.NewString`. Tokens are the parameter `uuids`, so the uniqueness of
  tokens is not proved.
- `time.Now().AddDate(0, 0, -1)`. The timestamp is the parameter
  `yesterday`, and date arithmetic is not modelled.
- `context.Context`, the printing of `Count <n>` (Run returns the number
  instead) and the capacity hints given to `make`.
- The `Entity` interface and its `GetId` dispatch. These are collapsed to
  the one implementation, `ItemModel`, and its `id` field.
- Keys are pointers to the records' key structs in the program. The model
  uses key values, so aliasing between a key and its record is not
  captured.
- Items.CreateEntities: takes `count` as a natural number. A negative count
  in the program makes `make` panic, because the capacity `count*2` is
  negative. Go's 64-bit `int` overflow for huge counts is not modelled
  either.
- Panics are fault values that end the run. Process exit codes and panic
  messages are not modelled.
- The "invalid size" panic has no fault value. `Batch.FillEntities` proves
  that it cannot be reached.
