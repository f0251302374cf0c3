/** The in-memory activity catalog of the Mergington High School API as values:
    the activity record, the catalog that maps activity names to records, the
    seed catalog installed at start-up, and the signup transition as a pure
    function over catalogs, together with the properties it keeps. */
module Activities {

  type Email = string
  type ActivityName = string

  /** One extracurricular activity: its free-text description and schedule,
      its capacity and its roster in signup order. */
  datatype Activity = Activity(
    description: string,
    schedule: string,
    maxParticipants: int,
    participants: seq<Email>)

  /** The registry's table, keyed by activity name. */
  type Catalog = map<ActivityName, Activity>

  /** What a signup answers: the confirmation message, or one of the three
      client errors. */
  datatype SignupResult = Ok(message: string) | NotFound | AlreadyRegistered | ActivityFull
  {
    /** The HTTP status the web layer answers with. */
    function StatusCode(): (code: int)
      ensures code == 200 <==> Ok?
      ensures code == 404 <==> NotFound?
      ensures code == 400 <==> AlreadyRegistered? || ActivityFull?
      ensures 400 <= code < 500 <==> !Ok?
    {
      match this
      case Ok(_) => 200
      case NotFound => 404
      case AlreadyRegistered => 400
      case ActivityFull => 400
    }

    /** The `detail` text of the error response. */
    function Detail(): (d: string)
      requires !Ok?
      ensures NotFound? ==> d == "Activity not found"
      ensures AlreadyRegistered? ==> d == "Student already signed up for this activity"
      ensures ActivityFull? ==> d == "Activity is full"
    {
      match this
      case NotFound => "Activity not found"
      case AlreadyRegistered => "Student already signed up for this activity"
      case ActivityFull => "Activity is full"
    }
  }

  /** A client tells the three errors apart by status code and detail text. */
  lemma ErrorsDistinguishable(r1: SignupResult, r2: SignupResult)
    requires !r1.Ok? && !r2.Ok? && r1 != r2
    ensures r1.StatusCode() != r2.StatusCode() || r1.Detail() != r2.Detail()
  {
  }

  /** No email occurs twice in a roster. */
  predicate Distinct(s: seq<Email>)
  {
    forall i, j :: 0 <= i < j < |s| ==> s[i] != s[j]
  }

  /** The per-activity invariant: the roster fits the capacity and has no duplicate. */
  predicate WellFormed(a: Activity)
  {
    |a.participants| <= a.maxParticipants && Distinct(a.participants)
  }

  /** Every activity of the catalog is well formed. */
  predicate CatalogInvariant(c: Catalog)
  {
    forall n :: n in c ==> WellFormed(c[n])
  }

  /** The number of times `e` occurs in roster `s`. */
  function Occurrences(s: seq<Email>, e: Email): nat
  {
    if s == [] then 0
    else Occurrences(s[..|s| - 1], e) + (if s[|s| - 1] == e then 1 else 0)
  }

  /** An email that a duplicate-free roster contains occurs in it exactly once. */
  lemma {:induction false} DistinctOccursOnce(s: seq<Email>, e: Email)
    requires Distinct(s)
    ensures Occurrences(s, e) == if e in s then 1 else 0
  {
    if s != [] {
      var init := s[..|s| - 1];
      assert Distinct(init);
      DistinctOccursOnce(init, e);
      assert s == init + [s[|s| - 1]];
      if s[|s| - 1] == e {
        assert e !in init by {
          forall i | 0 <= i < |init| ensures init[i] != e {
            assert s[i] != s[|s| - 1];
          }
        }
      }
    }
  }

  /** An email that a roster does not contain occurs in it zero times. */
  lemma {:induction false} AbsentOccursNever(s: seq<Email>, e: Email)
    requires e !in s
    ensures Occurrences(s, e) == 0
  {
    if s != [] {
      AbsentOccursNever(s[..|s| - 1], e);
    }
  }

  /** Appending an email that is absent keeps a roster duplicate-free. */
  lemma DistinctAppend(s: seq<Email>, e: Email)
    requires e !in s
    ensures Distinct(s) ==> Distinct(s + [e])
  {
  }

  /** The confirmation text "Signed up {email} for {activity_name}". */
  function Confirmation(email: Email, name: ActivityName): (m: string)
    ensures |m| == |"Signed up "| + |email| + |" for "| + |name|
    ensures m[..|"Signed up "|] == "Signed up "
    ensures m[|"Signed up "|..|"Signed up "| + |email|] == email
    ensures m[|"Signed up "| + |email|..|m| - |name|] == " for "
    ensures m[|m| - |name|..] == name
  {
    "Signed up " + email + " for " + name
  }

  /** A seed activity: capacity of at least twelve, two distinct seed
      participants. */
  predicate SeedShaped(a: Activity)
  {
    |a.participants| == 2 && 12 <= a.maxParticipants && WellFormed(a)
  }

  // The nine seed activities.
  const ChessClub: Activity := Activity(
    "Learn strategies and compete in chess tournaments",
    "Fridays, 3:30 PM - 5:00 PM", 12,
    ["michael@mergington.edu", "daniel@mergington.edu"])
  const ProgrammingClass: Activity := Activity(
    "Learn programming fundamentals and build software projects",
    "Tuesdays and Thursdays, 3:30 PM - 4:30 PM", 20,
    ["emma@mergington.edu", "sophia@mergington.edu"])
  const GymClass: Activity := Activity(
    "Physical education and sports activities",
    "Mondays, Wednesdays, Fridays, 2:00 PM - 3:00 PM", 30,
    ["john@mergington.edu", "olivia@mergington.edu"])
  const BasketballTeam: Activity := Activity(
    "Team practices and interschool basketball matches",
    "Mondays and Thursdays, 4:00 PM - 6:00 PM", 15,
    ["liam@mergington.edu", "noah@mergington.edu"])
  const SoccerClub: Activity := Activity(
    "Skill drills, scrimmages and weekend matches",
    "Wednesdays and Saturdays, 4:30 PM - 6:30 PM", 22,
    ["isabella@mergington.edu", "mason@mergington.edu"])
  const DramaClub: Activity := Activity(
    "Acting workshops, rehearsals and school productions",
    "Tuesdays and Fridays, 5:00 PM - 7:00 PM", 25,
    ["ava@mergington.edu", "lucas@mergington.edu"])
  const ArtStudio: Activity := Activity(
    "Painting, drawing and mixed-media art sessions",
    "Thursdays, 3:30 PM - 5:30 PM", 20,
    ["mia@mergington.edu", "amelia@mergington.edu"])
  const DebateTeam: Activity := Activity(
    "Public speaking, argumentation and competitive debating",
    "Mondays, 5:00 PM - 6:30 PM", 18,
    ["oliver@mergington.edu", "elijah@mergington.edu"])
  const ScienceClub: Activity := Activity(
    "Experiments, projects and science fair preparation",
    "Fridays, 4:00 PM - 6:00 PM", 20,
    ["sophia.b@mergington.edu", "charlotte@mergington.edu"])

  /** The catalog installed at start-up. */
  function Seed(): Catalog
  {
    map[
      "Chess Club" := ChessClub,
      "Programming Class" := ProgrammingClass,
      "Gym Class" := GymClass,
      "Basketball Team" := BasketballTeam,
      "Soccer Club" := SoccerClub,
      "Drama Club" := DramaClub,
      "Art Studio" := ArtStudio,
      "Debate Team" := DebateTeam,
      "Science Club" := ScienceClub
    ]
  }

  /** The seed catalog has nine activities, each with two distinct seed
      participants and a capacity of at least twelve, so the catalog
      invariant holds from the start. */
  lemma SeedFacts()
    ensures |Seed()| == 9
    ensures forall n :: n in Seed() ==> SeedShaped(Seed()[n])
    ensures CatalogInvariant(Seed())
  {
    SeedSize();
    SeedActivitiesShaped();
  }

  /** Helper for SeedFacts: the nine seed names are pairwise different, so the seed catalog has nine entries. */
  lemma SeedSize()
    ensures |Seed()| == 9
  {
  }

  /** Helper for SeedFacts: each seed record has the seed shape. */
  lemma SeedActivitiesShaped()
    ensures forall n :: n in Seed() ==> SeedShaped(Seed()[n])
  {
    SeedRecordsShaped();
  }

  /** Helper for SeedActivitiesShaped: the nine seed records, one by one. */
  lemma SeedRecordsShaped()
    ensures SeedShaped(ChessClub) && SeedShaped(ProgrammingClass) && SeedShaped(GymClass)
    ensures SeedShaped(BasketballTeam) && SeedShaped(SoccerClub) && SeedShaped(DramaClub)
    ensures SeedShaped(ArtStudio) && SeedShaped(DebateTeam) && SeedShaped(ScienceClub)
  {
  }

  /** What one signup answers and the catalog it leaves behind. */
  datatype Outcome = Outcome(result: SignupResult, catalog: Catalog)

  /** The signup transition: unknown activity, then duplicate email, then a
      full roster are refused in that order; otherwise the email is appended
      to that one roster. */
  function SignupOutcome(c: Catalog, name: ActivityName, email: Email): (o: Outcome)
    // no activity is added or removed, and every other activity is untouched
    ensures o.catalog.Keys == c.Keys
    ensures forall n :: n in c && n != name ==> o.catalog[n] == c[n]
    // a refused signup changes nothing
    ensures !o.result.Ok? ==> o.catalog == c
    // a successful one appends at the end of the roster and keeps the activity's other fields
    ensures o.result.Ok? ==>
      && name in c
      && o.result.message == Confirmation(email, name)
      && o.catalog[name] == c[name].(participants := c[name].participants + [email])
    // the catalog invariant is preserved
    ensures CatalogInvariant(c) ==> CatalogInvariant(o.catalog)
  {
    if name !in c then Outcome(NotFound, c)
    else
      var a := c[name];
      if email in a.participants then Outcome(AlreadyRegistered, c)
      else if |a.participants| >= a.maxParticipants then Outcome(ActivityFull, c)
      else
        var a' := a.(participants := a.participants + [email]);
        DistinctAppend(a.participants, email);
        Outcome(Ok(Confirmation(email, name)), c[name := a'])
  }

  /** Which answer a signup gives, and which check decides it: an unknown
      name is NotFound whatever the email; the duplicate check comes before
      the capacity check; only a new email on an activity with room succeeds. */
  lemma SignupErrorOrder(c: Catalog, name: ActivityName, email: Email)
    ensures name !in c ==> SignupOutcome(c, name, email).result == NotFound
    ensures name in c && email in c[name].participants ==>
      SignupOutcome(c, name, email).result == AlreadyRegistered
    ensures name in c && email !in c[name].participants
            && |c[name].participants| >= c[name].maxParticipants ==>
              SignupOutcome(c, name, email).result == ActivityFull
    ensures SignupOutcome(c, name, email).result.Ok? <==>
      name in c && email !in c[name].participants
      && |c[name].participants| < c[name].maxParticipants
  {
  }

  /** Repeating a successful signup is refused as a duplicate, and the email
      then occurs exactly once in the roster. */
  lemma SignupTwice(c: Catalog, name: ActivityName, email: Email)
    requires SignupOutcome(c, name, email).result.Ok?
    ensures var c1 := SignupOutcome(c, name, email).catalog;
      && SignupOutcome(c1, name, email) == Outcome(AlreadyRegistered, c1)
      && Occurrences(c1[name].participants, email) == 1
  {
    var before := c[name].participants;
    var after := SignupOutcome(c, name, email).catalog[name].participants;
    AbsentOccursNever(before, email);
    assert after[..|after| - 1] == before;
  }

  /** One signup request: the activity name and the email. */
  datatype Request = Request(activity: ActivityName, email: Email)

  /** The catalog after serving the requests one after another. */
  function Run(c: Catalog, reqs: seq<Request>): Catalog
    decreases |reqs|
  {
    if reqs == [] then c
    else Run(SignupOutcome(c, reqs[0].activity, reqs[0].email).catalog, reqs[1..])
  }

  /** The invariant holds after any sequence of signups from a catalog that satisfies it. */
  lemma {:induction false} RunPreservesInvariant(c: Catalog, reqs: seq<Request>)
    requires CatalogInvariant(c)
    ensures CatalogInvariant(Run(c, reqs))
    decreases |reqs|
  {
    if reqs != [] {
      RunPreservesInvariant(SignupOutcome(c, reqs[0].activity, reqs[0].email).catalog, reqs[1..]);
    }
  }

  /** Across any sequence of signups no activity is added or removed, no
      description, schedule or capacity changes, and every roster only grows
      at its end. */
  lemma {:induction false} RunOnlyExtendsRosters(c: Catalog, reqs: seq<Request>)
    ensures Run(c, reqs).Keys == c.Keys
    ensures forall n :: n in c ==>
      var a, b := c[n], Run(c, reqs)[n];
      && b.description == a.description
      && b.schedule == a.schedule
      && b.maxParticipants == a.maxParticipants
      && a.participants <= b.participants
    decreases |reqs|
  {
    if reqs != [] {
      var c1 := SignupOutcome(c, reqs[0].activity, reqs[0].email).catalog;
      RunOnlyExtendsRosters(c1, reqs[1..]);
    }
  }

  /** The requests that sign up each of `emails`, in order, for one activity. */
  function SignupsFor(name: ActivityName, emails: seq<Email>): seq<Request>
  {
    seq(|emails|, i requires 0 <= i < |emails| => Request(name, emails[i]))
  }

  /** Helper for FillRoster: the first request signs up the first email, the rest sign up the rest. */
  lemma SignupsForFirst(name: ActivityName, emails: seq<Email>)
    requires emails != []
    ensures SignupsFor(name, emails)[0] == Request(name, emails[0])
    ensures SignupsFor(name, emails)[1..] == SignupsFor(name, emails[1..])
  {
  }

  /** Signing up new, distinct emails that fit the remaining room succeeds
      for every one of them: the roster becomes the old one followed by those
      emails in order. */
  lemma {:induction false} FillRoster(c: Catalog, name: ActivityName, emails: seq<Email>)
    requires name in c
    requires Distinct(emails)
    requires forall e :: e in emails ==> e !in c[name].participants
    requires |c[name].participants| + |emails| <= c[name].maxParticipants
    ensures name in Run(c, SignupsFor(name, emails))
    ensures Run(c, SignupsFor(name, emails))[name] ==
      c[name].(participants := c[name].participants + emails)
    decreases |emails|
  {
    if emails == [] {
      assert c[name].participants + emails == c[name].participants;
    } else {
      var o := SignupOutcome(c, name, emails[0]);
      assert o.result.Ok?;
      var rest := emails[1..];
      assert Distinct(rest);
      forall e | e in rest ensures e !in o.catalog[name].participants {
        assert e != emails[0];
      }
      FillRoster(o.catalog, name, rest);
      SignupsForFirst(name, emails);
      var reqs := SignupsFor(name, emails);
      assert Run(c, reqs) == Run(o.catalog, SignupsFor(name, rest));
      assert c[name].participants + [emails[0]] + rest == c[name].participants + emails;
    }
  }

  /** Once new, distinct emails have filled an activity to its capacity, the
      next new email is refused with ActivityFull. */
  lemma FilledActivityIsFull(c: Catalog, name: ActivityName, emails: seq<Email>, late: Email)
    requires name in c
    requires Distinct(emails)
    requires forall e :: e in emails ==> e !in c[name].participants
    requires |c[name].participants| + |emails| == c[name].maxParticipants
    requires late !in emails && late !in c[name].participants
    ensures SignupOutcome(Run(c, SignupsFor(name, emails)), name, late).result == ActivityFull
  {
    FillRoster(c, name, emails);
  }

  /** The seed entry of Science Club: capacity 20, two participants. */
  lemma ScienceClubSeed()
    ensures "Science Club" in Seed()
    ensures Seed()["Science Club"].maxParticipants == 20
    ensures Seed()["Science Club"].participants == ["sophia.b@mergington.edu", "charlotte@mergington.edu"]
  {
  }

  /** A seed participant of Chess Club signing up again is refused as a duplicate. */
  lemma ChessClubSeedDuplicate()
    ensures SignupOutcome(Seed(), "Chess Club", "michael@mergington.edu") == Outcome(AlreadyRegistered, Seed())
  {
    assert "Chess Club" in Seed() && Seed()["Chess Club"] == ChessClub;
  }

  /** The seed entry of Debate Team: capacity 18, two participants. */
  lemma SeedDebateTeam()
    ensures "Debate Team" in Seed()
    ensures Seed()["Debate Team"].maxParticipants == 18
    ensures Seed()["Debate Team"].participants == ["oliver@mergington.edu", "elijah@mergington.edu"]
  {
  }

  /** Debate Team (capacity 18, two seed participants) accepts sixteen new
      distinct emails and refuses the nineteenth participant as full. */
  lemma DebateTeamFillsUp(emails: seq<Email>, late: Email)
    requires |emails| == 16 && Distinct(emails)
    requires forall e :: e in emails ==> e != "oliver@mergington.edu" && e != "elijah@mergington.edu"
    requires late !in emails && late != "oliver@mergington.edu" && late != "elijah@mergington.edu"
    ensures "Debate Team" in Run(Seed(), SignupsFor("Debate Team", emails))
    ensures Run(Seed(), SignupsFor("Debate Team", emails))["Debate Team"].participants ==
      ["oliver@mergington.edu", "elijah@mergington.edu"] + emails
    ensures SignupOutcome(Run(Seed(), SignupsFor("Debate Team", emails)), "Debate Team", late).result
      == ActivityFull
  {
    var c := Seed();
    SeedDebateTeam();
    FillRoster(c, "Debate Team", emails);
    FilledActivityIsFull(c, "Debate Team", emails, late);
  }
}
