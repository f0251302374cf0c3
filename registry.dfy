/** The registry object the web layer serves: it owns the live catalog,
    installs the seed activities when it is created, lists the catalog and
    changes it only through signups. */
module App {
  import opened Activities

  class ActivityRegistry {
    /** The live table from activity name to activity record. */
    var activities: Catalog

    /** Every roster fits its capacity and holds each email at most once. */
    ghost predicate Valid()
      reads this
    {
      CatalogInvariant(activities)
    }

    /** A registry holding exactly the nine seed activities with their seed rosters. */
    constructor ()
      ensures activities == Seed()
      ensures |activities| == 9
      ensures Valid()
    {
      activities := Seed();
      SeedFacts();
    }

    /** The current catalog; nothing changes. */
    method GetActivities() returns (table: Catalog)
      ensures table == activities
    {
      table := activities;
    }

    /** Signs `email` up for `activityName`. Refuses an unknown activity, then
        an email already on the roster, then a full roster; otherwise appends
        the email to that roster and confirms. */
    method SignupForActivity(activityName: ActivityName, email: Email) returns (result: SignupResult)
      modifies this
      ensures Outcome(result, activities) == SignupOutcome(old(activities), activityName, email)
      ensures old(Valid()) ==> Valid()
      ensures activities.Keys == old(activities).Keys
      ensures forall n :: n in old(activities) && n != activityName ==> activities[n] == old(activities)[n]
      ensures !result.Ok? ==> activities == old(activities)
      ensures result.Ok? ==>
        && activityName in old(activities)
        && activities[activityName] ==
             old(activities)[activityName].(participants := old(activities)[activityName].participants + [email])
        && result.message == Confirmation(email, activityName)
    {
      if activityName !in activities {
        return NotFound;
      }
      var activity := activities[activityName];
      if email in activity.participants {
        return AlreadyRegistered;
      }
      if |activity.participants| >= activity.maxParticipants {
        return ActivityFull;
      }
      activities := activities[activityName := activity.(participants := activity.participants + [email])];
      result := Ok(Confirmation(email, activityName));
    }
  }

  /** Signing the same student up twice for a seed activity with room:
      the first call is confirmed, the second refused as a duplicate, the
      roster holds the email once, after the seed participants, and the
      registry invariant still bounds the roster by the capacity. */
  method SignupTwiceScenario(email: Email)
    requires email != "sophia.b@mergington.edu" && email != "charlotte@mergington.edu"
  {
    var registry := new ActivityRegistry();
    ScienceClubSeed();
    var seeded := registry.GetActivities();
    var first := registry.SignupForActivity("Science Club", email);
    assert first == Ok(Confirmation(email, "Science Club"));
    SignupTwice(seeded, "Science Club", email);
    var second := registry.SignupForActivity("Science Club", email);
    assert second == AlreadyRegistered;
    var table := registry.GetActivities();
    assert table["Science Club"].participants
      == ["sophia.b@mergington.edu", "charlotte@mergington.edu", email];
    assert Occurrences(table["Science Club"].participants, email) == 1;
    assert registry.Valid();
    assert WellFormed(table["Science Club"]);
  }
}
