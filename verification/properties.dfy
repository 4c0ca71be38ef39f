/** Properties that relate several handler calls: the capacity bound over a
    sequence of friend events, and when a full sync is idempotent. */
module Properties {
  import opened Roster
  import opened Settings
  import opened Engine

  /** One incremental `friend` event: a user and their new state. */
  datatype Event = Event(user: Id, state: Relationship)

  /** The `friend` handler applied to each event in turn; the host delivers
      events one at a time, each handler running to completion. The roster
      stays keyed by id, and with a numeric limit a roster within the limit
      stays within it after any sequence of events. */
  function OnFriendEvents(roster: seq<Id>, cfg: Config, events: seq<Event>): (r: Step)
    ensures Distinct(roster) ==> Distinct(r.roster)
    ensures cfg.limit.Number? && Distinct(roster) && |roster| <= cfg.limit.n ==> |r.roster| <= cfg.limit.n
    ensures |events| == 0 ==> r == Step(roster, [])
    ensures |events| > 0 ==> |r.out| > 0 && r.out[|r.out| - 1] == Save(r.roster)
    ensures |r.out| >= |events|
    decreases |events|
  {
    if |events| == 0 then Step(roster, [])
    else
      var first := OnFriend(roster, cfg, events[0].user, events[0].state);
      var rest := OnFriendEvents(first.roster, cfg, events[1..]);
      var out := first.out + rest.out;
      assert |rest.out| > 0 ==> out[|out| - 1] == rest.out[|rest.out| - 1];
      Step(rest.roster, out)
  }

  /** With a sync that lists the roster's friends, the first loop adds
      nothing: every friend is already a member. */
  lemma {:induction false} LemmaSyncAdditionsStable(roster: seq<Id>, cfg: Config, snap: seq<Entry>)
    requires NoRequests(snap)
    requires forall x :: x in FriendKeys(snap) ==> x in roster
    ensures SyncAdditions(roster, cfg, snap).roster == roster
    decreases |snap|
  {
    if |snap| > 0 {
      LemmaKeysCons(snap);
      assert SyncEntry(roster, cfg, snap[0]).roster == roster;
      LemmaSyncAdditionsStable(roster, cfg, snap[1..]);
    }
  }

  /** A full sync without pending requests is idempotent: repeating it with
      the same snapshot leaves the roster and the commands as they were. */
  lemma LemmaSyncIdempotentWithoutRequests(roster: seq<Id>, cfg: Config, snap: seq<Entry>)
    requires NoRequests(snap)
    ensures OnRelationships(OnRelationships(roster, cfg, snap).roster, cfg, snap)
         == OnRelationships(roster, cfg, snap)
  {
    var once := OnRelationships(roster, cfg, snap);
    LemmaSyncAdditionsStable(once.roster, cfg, snap);
    LemmaRemoveStaleNothingStale(once.roster, Keys(snap));
  }

  /** Under a resolved configuration the limit is never zero, so with the
      abstract store a full roster always has an oldest member and a request
      is never dropped. */
  lemma LemmaResolvedNeverDrops(roster: seq<Id>, raw: RawConfig, user: Id)
    ensures !Dropped(roster, Resolve(raw))
    ensures AddFriend(roster, Resolve(raw), user).roster != roster || user in roster
  {
    ResolvedLimit(raw, |roster|);
  }
}
