/** Worked examples on concrete rosters: the eviction and admission
    scenarios of the policy, a sync where the code keeps a member whose
    snapshot state is `None`, the two places where a full sync departs
    from the capacity bound and from idempotence, and a removal that brings
    the eviction test back. The first lemmas unfold the handlers on small
    inputs for these examples. */
module Scenarios {
  import opened Roster
  import opened Settings
  import opened Engine
  import opened Properties

  /** A configuration with the given numeric limit and no greeting. */
  function Limit(n: int): (c: Config)
    ensures c.limit == Number(n) && !Greets(c)
  {
    Config(Number(n), Undefined, Undefined)
  }

  /** `addFriend` on a full roster, unfolded. */
  lemma LemmaAddFriendEvicting(roster: seq<Id>, cfg: Config, user: Id)
    requires Evicts(roster, cfg)
    ensures AddFriend(roster, cfg, user)
         == Step(Add(Remove(roster, roster[0]), user), EvictCommands(roster[0]) + AdmitCommands(cfg, user))
  {
  }

  /** `addFriend` on a roster whose count differs from the limit, unfolded. */
  lemma LemmaAddFriendAdmitting(roster: seq<Id>, cfg: Config, user: Id)
    requires !AtLimit(|roster|, cfg.limit)
    ensures AddFriend(roster, cfg, user) == Step(Add(roster, user), AdmitCommands(cfg, user))
  {
  }

  /** The `friend` handler on a request, unfolded. */
  lemma LemmaOnFriendRequest(roster: seq<Id>, cfg: Config, user: Id)
    ensures
      var a := AddFriend(roster, cfg, user);
      OnFriend(roster, cfg, user, RequestRecipient) == Step(a.roster, a.out + [Save(a.roster)])
  {
  }

  /** The admission commands without a greeting. */
  lemma LemmaAdmitCommandsPlain(cfg: Config, user: Id)
    requires !Greets(cfg)
    ensures AdmitCommands(cfg, user) == [Accept(user), Info(Added(user)), FriendAccepted(user)]
  {
  }

  /** The first sync loop handles the first entry, then the rest. */
  lemma LemmaSyncAdditionsCons(roster: seq<Id>, cfg: Config, snap: seq<Entry>)
    requires |snap| > 0
    ensures SyncAdditions(roster, cfg, snap).roster
         == SyncAdditions(SyncEntry(roster, cfg, snap[0]).roster, cfg, snap[1..]).roster
  {
  }

  /** A two-entry first loop, unfolded. */
  lemma LemmaSyncAdditionsPair(roster: seq<Id>, cfg: Config, a: Entry, b: Entry)
    ensures SyncAdditions(roster, cfg, [a, b]).roster == SyncEntry(SyncEntry(roster, cfg, a).roster, cfg, b).roster
  {
    var snap := [a, b];
    LemmaSyncAdditionsCons(roster, cfg, snap);
    var r1 := SyncEntry(roster, cfg, a).roster;
    assert snap[1..] == [b];
    LemmaSyncAdditionsCons(r1, cfg, [b]);
    var r2 := SyncEntry(r1, cfg, b).roster;
    assert [b][1..] == [];
    assert SyncAdditions(r2, cfg, []).roster == r2;
  }

  /** The ids of a two-entry snapshot. */
  lemma LemmaKeysPair(a: Entry, b: Entry)
    ensures Keys([a, b]) == {a.id, b.id}
  {
    var snap := [a, b];
    LemmaKeysCons(snap);
    LemmaKeysCons(snap[1..]);
    assert snap[1..][1..] == [];
  }

  /** The sync's roster is the first loop's roster without stale members. */
  lemma LemmaOnRelationshipsRoster(roster: seq<Id>, cfg: Config, snap: seq<Entry>)
    ensures OnRelationships(roster, cfg, snap).roster == RemoveStale(SyncAdditions(roster, cfg, snap).roster, Keys(snap))
  {
  }

  /** A two-entry sync, unfolded: the entries are handled in order, then
      members that are neither id are removed. */
  lemma LemmaSyncPair(roster: seq<Id>, cfg: Config, a: Entry, b: Entry)
    ensures OnRelationships(roster, cfg, [a, b]).roster
         == RemoveStale(SyncEntry(SyncEntry(roster, cfg, a).roster, cfg, b).roster, {a.id, b.id})
  {
    LemmaOnRelationshipsRoster(roster, cfg, [a, b]);
    LemmaSyncAdditionsPair(roster, cfg, a, b);
    LemmaKeysPair(a, b);
  }

  /** Limit 2, roster [P1, P2] with P1 oldest, a request from P3: P1 is
      terminated and removed before P3 is accepted; the roster is [P2, P3]
      and one save of it follows. */
  lemma ScenarioEvictOldest()
    ensures
      var r := OnFriend(["P1", "P2"], Limit(2), "P3", RequestRecipient);
      r.roster == ["P2", "P3"]
      && r.out == [Terminate("P1"), Info(Evicted("P1")), FriendRemoved("P1"),
                   Accept("P3"), Info(Added("P3")), FriendAccepted("P3"), Save(["P2", "P3"])]
  {
    EvictOldestStep();
    LemmaOnFriendRequest(["P1", "P2"], Limit(2), "P3");
  }

  lemma EvictOldestStep()
    ensures AddFriend(["P1", "P2"], Limit(2), "P3")
         == Step(["P2", "P3"], [Terminate("P1"), Info(Evicted("P1")), FriendRemoved("P1"),
                                Accept("P3"), Info(Added("P3")), FriendAccepted("P3")])
  {
    LemmaAddFriendEvicting(["P1", "P2"], Limit(2), "P3");
    LemmaAdmitCommandsPlain(Limit(2), "P3");
    RemoveOldestStep();
  }

  lemma RemoveOldestStep()
    ensures Add(Remove(["P1", "P2"], "P1"), "P3") == ["P2", "P3"]
  {
    assert Remove(["P1", "P2"], "P1") == ["P2"];
  }

  /** Limit 100, empty roster, a request from P1: accepted with no eviction. */
  lemma ScenarioAdmitIntoEmpty()
    ensures
      var r := OnFriend([], Resolve(RawConfig(Undefined, Undefined, Undefined)), "P1", RequestRecipient);
      r.roster == ["P1"] && r.out == [Accept("P1"), Info(Added("P1")), FriendAccepted("P1"), Save(["P1"])]
  {
    var cfg := Resolve(RawConfig(Undefined, Undefined, Undefined));
    assert cfg == Config(Number(100), Undefined, Number(3000));
    LemmaAddFriendAdmitting([], cfg, "P1");
    LemmaAdmitCommandsPlain(cfg, "P1");
    LemmaOnFriendRequest([], cfg, "P1");
  }

  /** A configured greeting follows the admission, addressed to the new user. */
  lemma ScenarioGreeting()
    ensures
      var cfg := Resolve(RawConfig(Undefined, Str("hi"), Undefined));
      AddFriend([], cfg, "P1").out == [Accept("P1"), Info(Added("P1")), FriendAccepted("P1"), Greet("P1", "hi")]
  {
    var cfg := Resolve(RawConfig(Undefined, Str("hi"), Undefined));
    LemmaAddFriendAdmitting([], cfg, "P1");
  }

  /** A full list with nobody to remove (only reachable with a zero limit,
      which configuration defaulting never yields): the request is dropped
      with a warning and the roster is saved unchanged. */
  lemma ScenarioNobodyToRemove()
    ensures
      var r := OnFriend([], Limit(0), "P1", RequestRecipient);
      r.roster == [] && r.out == [Warn(RequestDropped("P1")), Save([])]
  {
    LemmaOnFriendRequest([], Limit(0), "P1");
  }

  lemma SyncKeepsListedNoneStep()
    ensures RemoveStale(SyncEntry(SyncEntry(["P1", "P2", "P3"], Limit(100), Entry("P1", Friend)).roster,
                                  Limit(100), Entry("P2", None)).roster, {"P1", "P2"}) == ["P1", "P2"]
  {
    var keys: set<Id> := {"P1", "P2"};
    assert "P1" in ["P1", "P2", "P3"];
    assert SyncEntry(["P1", "P2", "P3"], Limit(100), Entry("P1", Friend)).roster == ["P1", "P2", "P3"];
    assert ["P1", "P2", "P3"] == ["P1", "P2"] + ["P3"];
    LemmaRemoveStaleSnoc(["P1", "P2"], "P3", keys);
    LemmaRemoveStaleNothingStale(["P1", "P2"], keys);
  }

  /** Sync of roster [P1, P2, P3] against {P1: Friend, P2: None}: P3 is
      stale and removed, but P2 stays, because the removal pass only asks
      whether a member is a key of the snapshot, whatever its state. */
  lemma ScenarioSyncKeepsListedNone()
    ensures OnRelationships(["P1", "P2", "P3"], Limit(100), [Entry("P1", Friend), Entry("P2", None)]).roster
         == ["P1", "P2"]
  {
    LemmaSyncPair(["P1", "P2", "P3"], Limit(100), Entry("P1", Friend), Entry("P2", None));
    SyncKeepsListedNoneStep();
  }

  lemma ExceedLimitStep()
    ensures RemoveStale(SyncEntry(SyncEntry(["a"], Limit(1), Entry("a", Friend)).roster,
                                  Limit(1), Entry("b", Friend)).roster, {"a", "b"}) == ["a", "b"]
  {
    assert SyncEntry(["a"], Limit(1), Entry("a", Friend)).roster == ["a"];
    assert SyncEntry(["a"], Limit(1), Entry("b", Friend)).roster == ["a", "b"];
    LemmaRemoveStaleNothingStale(["a", "b"], {"a", "b"});
  }

  lemma AdmitPastLimitStep()
    ensures AddFriend(["a", "b"], Limit(1), "c").roster == ["a", "b", "c"]
    ensures NoTerminate(AddFriend(["a", "b"], Limit(1), "c").out)
  {
    LemmaAddFriendAdmitting(["a", "b"], Limit(1), "c");
  }

  /** A sync can push the roster past the limit, since `Friend` entries
      bypass eviction; while the count stays past it, the exact-equality
      test does not fire and an admission grows the roster further. */
  lemma ScenarioSyncExceedsLimit()
    ensures
      var synced := OnRelationships(["a"], Limit(1), [Entry("a", Friend), Entry("b", Friend)]);
      var next := AddFriend(synced.roster, Limit(1), "c");
      synced.roster == ["a", "b"] && next.roster == ["a", "b", "c"] && NoTerminate(next.out)
  {
    LemmaSyncPair(["a"], Limit(1), Entry("a", Friend), Entry("b", Friend));
    ExceedLimitStep();
    AdmitPastLimitStep();
  }

  lemma EvictForRequestStep()
    ensures SyncEntry(["a"], Limit(1), Entry("b", RequestRecipient)).roster == ["b"]
  {
    LemmaAddFriendEvicting(["a"], Limit(1), "b");
    assert Remove(["a"], "a") == [];
  }

  lemma FirstSyncStep()
    ensures RemoveStale(SyncEntry(SyncEntry([], Limit(1), Entry("a", Friend)).roster,
                                  Limit(1), Entry("b", RequestRecipient)).roster, {"a", "b"}) == ["b"]
  {
    assert SyncEntry([], Limit(1), Entry("a", Friend)).roster == ["a"];
    EvictForRequestStep();
    LemmaRemoveStaleNothingStale(["b"], {"a", "b"});
  }

  lemma ReadmitPastLimitStep()
    ensures SyncEntry(["b", "a"], Limit(1), Entry("b", RequestRecipient)).roster == ["a", "b"]
  {
    LemmaAddFriendAdmitting(["b", "a"], Limit(1), "b");
    assert Remove(["b", "a"], "b") == ["a"];
  }

  lemma SecondSyncStep()
    ensures RemoveStale(SyncEntry(SyncEntry(["b"], Limit(1), Entry("a", Friend)).roster,
                                  Limit(1), Entry("b", RequestRecipient)).roster, {"a", "b"}) == ["a", "b"]
  {
    assert SyncEntry(["b"], Limit(1), Entry("a", Friend)).roster == ["b", "a"];
    ReadmitPastLimitStep();
    LemmaRemoveStaleNothingStale(["a", "b"], {"a", "b"});
  }

  /** With a pending request in the snapshot a repeated sync is not
      idempotent: limit 1, an empty roster and {a: Friend, b: RequestRecipient}.
      The first sync adds a, then evicts it for b; the second finds a
      missing, adds it directly, and with two members against a limit of
      one no longer evicts, so the roster changes from [b] to [a, b]. */
  lemma ScenarioSyncNotIdempotent()
    ensures
      var snap := [Entry("a", Friend), Entry("b", RequestRecipient)];
      var once := OnRelationships([], Limit(1), snap);
      once.roster == ["b"] && OnRelationships(once.roster, Limit(1), snap).roster == ["a", "b"]
  {
    LemmaSyncPair([], Limit(1), Entry("a", Friend), Entry("b", RequestRecipient));
    FirstSyncStep();
    LemmaSyncPair(["b"], Limit(1), Entry("a", Friend), Entry("b", RequestRecipient));
    SecondSyncStep();
  }

  /** Once past the limit, only a removal brings the count back to it: limit
      1, roster [a, b], `b` unfriends; the roster is [a], and the next
      request evicts `a` again. */
  lemma ScenarioRemovalRestoresEviction()
    ensures
      var after := OnFriend(["a", "b"], Limit(1), "b", None);
      var next := AddFriend(after.roster, Limit(1), "c");
      after.roster == ["a"] && next.roster == ["c"] && !NoTerminate(next.out) && next.out[0] == Terminate("a")
  {
    assert Remove(["a", "b"], "b") == ["a"];
    LemmaAddFriendEvicting(["a"], Limit(1), "c");
    assert Remove(["a"], "a") == [];
  }
}
