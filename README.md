# Mergington High School activity registry, in Dafny

This project models the in-memory activity registry of the Mergington High
School API (`src/app.py`). The registry is a table from activity name to an
activity record (`description`, `schedule`, `max_participants`,
`participants`). It is seeded with nine activities at start-up. Two operations
act on it:

- `get_activities` returns the table.
- `signup_for_activity` refuses an unknown activity (404, "Activity not
  found"), then an email already on the roster (400, "Student already signed
  up for this activity"), then a roster at or over capacity (400, "Activity is
  full"). Otherwise it appends the email to that one roster and answers
  "Signed up {email} for {activity_name}".

Emails and names are compared as literal strings. There is no format check and
no case folding, as in the source.

Files:

- `activities.dfy`, module `Activities`: the value model.
  - The `Activity` record, the `Catalog` map and the `SignupResult` answer
    (`Ok(message) | NotFound | AlreadyRegistered | ActivityFull`, with its HTTP
    status and detail text).
  - The seed table.
  - `SignupOutcome`, the signup transition as a pure function from a catalog
    to an answer and a new catalog.
  - `Run`, which serves a sequence of signup requests.
  - The lemmas about all of these.
- `registry.dfy`, module `App`: the class `ActivityRegistry`.
  - It owns the live catalog in a field, and its constructor installs the seed.
  - `GetActivities` reads the catalog.
  - `SignupForActivity` runs the three checks in order and updates the field.
    Its postcondition ties the answer and the new catalog to `SignupOutcome`.
  - A client method, `SignupTwiceScenario`, shows what callers can prove from
    these contracts alone.

The registry invariant (`CatalogInvariant`) says that every roster is no longer
than its capacity and holds each email at most once. The seed satisfies it, and
every signup keeps it.

`signup_for_activity` accepts empty activity names and emails; the model
accepts any strings.

## Model

| member | source | states |
|---|---|---|
| `Activities.SignupResult.StatusCode` | src/app.py:102-114 | success is 200, an unknown activity is 404, a duplicate email and a full roster are exactly 400, and exactly the three refusals are 4xx client errors |
| `Activities.SignupResult.Detail` | src/app.py:103-114 | the detail text of each refusal: "Activity not found", "Student already signed up for this activity", "Activity is full" |
| `Activities.ErrorsDistinguishable` | src/app.py:103-114 | any two different refusals differ in status code or in detail text |
| `Activities.Confirmation` | src/app.py:118 | the success message is "Signed up ", then the email, then " for ", then the activity name, and nothing else |
| `Activities.DistinctAppend` | src/app.py:109-117 | appending an email that the roster does not hold keeps the roster duplicate-free |
| `Activities.AbsentOccursNever` | src/app.py:109-117 | an email the roster does not hold occurs in it zero times, which is why the append at line 117 leaves it there exactly once |
| `Activities.DistinctOccursOnce` | src/app.py:109-117 | in a duplicate-free roster an email occurs exactly once if present and zero times if absent |
| `Activities.SeedFacts` | src/app.py:24-85 | the seed catalog has 9 activities, each with 2 distinct participants and a capacity of at least 12, so the invariant holds at start-up (`SeedSize`, `SeedActivitiesShaped` and `SeedRecordsShaped` are helpers that split this proof into cheaper steps) |
| `Activities.SignupOutcome` | src/app.py:98-118 | signup adds or removes no activity and leaves every other activity untouched. A refused signup changes nothing. A successful one implies the activity exists, appends the email at the end of that roster, keeps its description, schedule and capacity, and returns the confirmation message. The registry invariant is preserved |
| `Activities.SignupErrorOrder` | src/app.py:101-114 | an unknown name is NotFound whatever the email. An email already on the roster is AlreadyRegistered even when the roster is full. A full roster is ActivityFull only for a new email. Success happens exactly when the activity exists, the email is new and the roster is below capacity |
| `Activities.SignupTwice` | src/app.py:109-117 | after a successful signup the same signup is refused as AlreadyRegistered with no change, and the email occurs exactly once in the roster |
| `Activities.RunPreservesInvariant` | src/app.py:98-118 | after any sequence of signups every roster still fits its capacity and has no duplicate |
| `Activities.RunOnlyExtendsRosters` | src/app.py:98-118 | across any sequence of signups the set of activity names, every description, schedule and capacity stay the same, and each old roster is a prefix of the new one (entries are never removed or reordered) |
| `Activities.FillRoster` | src/app.py:112-117 | signing up new distinct emails that fit the remaining room succeeds for each one, and the roster becomes the old roster followed by those emails in order |
| `Activities.FilledActivityIsFull` | src/app.py:112-114 | once new distinct emails have filled an activity to its capacity, the next new email is refused with ActivityFull |
| `Activities.ScienceClubSeed` | src/app.py:79-84 | the seed Science Club has capacity 20 and the two seed participants |
| `Activities.ChessClubSeedDuplicate` | src/app.py:25-30 | signing up the seed participant michael@mergington.edu for Chess Club again is refused as AlreadyRegistered and changes nothing |
| `Activities.SeedDebateTeam` | src/app.py:73-78 | the seed Debate Team has capacity 18 and the two seed participants |
| `Activities.DebateTeamFillsUp` | src/app.py:73-78 | starting from the seed, Debate Team accepts 16 new distinct emails (its roster becomes the 2 seed participants followed by them) and refuses a 19th participant with ActivityFull |
| `App.ActivityRegistry.constructor` | src/app.py:24-85 | a new registry holds exactly the seed catalog of 9 activities and satisfies the invariant |
| `App.ActivityRegistry.GetActivities` | src/app.py:93-95 | returns the current catalog and changes nothing |
| `App.ActivityRegistry.SignupForActivity` | src/app.py:98-118 | the answer and the new catalog are those of `SignupOutcome` on the old catalog. The invariant is kept, no key is added or removed, other activities are unchanged, a refusal changes nothing, and a success appends the email to that one roster and returns the confirmation |

## Left out

- The FastAPI application object and the static-files mount (src/app.py:15-21) are framework wiring with no logic.
- The root redirect (src/app.py:88-90) and the server start (src/app.py:121-122) are HTTP and process I/O.
- HTTP transport is not modelled: raising `HTTPException`, reading path and query parameters, and JSON serialisation. The refusals are constructors of `SignupResult`, and their status codes and detail texts are functions on it.
- Concurrency is not modelled. The source has no lock around its check-then-append, and the model is sequential.
- App.ActivityRegistry.GetActivities: the source returns the live dictionary, and `append` mutates the roster list in place, so a caller holding the returned table sees later signups. The model has value semantics: it returns the catalog as it is at the call, and a signup replaces the activity's record in the registry's map. Aliasing between the returned table and the registry is therefore not captured.
- The order of the catalog's keys is not modelled. The source's dictionary keeps insertion order, which shows in the JSON that `get_activities` returns; a Dafny `map` has no order.
