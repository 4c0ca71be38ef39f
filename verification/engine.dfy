/** The reconciliation policy of the friends-list plugin: the `friend` event
    handler, the `relationships` full-sync handler and `addFriend`, the
    admission and oldest-first eviction rule. Each handler is a pure step from
    the roster, the settings and its input to the new roster and the list of
    outbound commands it issues, in issue order. */
module Engine {
  import opened Roster
  import opened Settings

  /** The relationship states the handlers distinguish; every other state of
      the service's enumeration (blocked, request sent, ignored, ...) is
      `Other`. */
  datatype Relationship = None | RequestRecipient | Friend | Other(code: nat)

  /** Human-readable notices; their wording is not modelled, only what they
      are about. */
  datatype Notice =
    | Evicted(id: Id)          // the list was full and `id` was removed
    | Added(id: Id)            // `id` has been added to the list
    | RequestDropped(id: Id)   // nobody to remove, so the request from `id` is ignored
    | Synchronized             // the list has been synchronized

  /** What a handler issues, in order. */
  datatype Command =
    | Accept(id: Id)                  // accept the pending friend request of `id`
    | Terminate(id: Id)               // remove `id` from the friends list on the service
    | Greet(id: Id, text: string)     // deferred welcome message to `id`
    | Info(notice: Notice)
    | Warn(notice: Notice)
    | Save(members: seq<Id>)          // persist the roster as it is at this point
    | FriendAccepted(id: Id)
    | FriendRemoved(id: Id)

  /** A handler's effect: the roster afterwards and the commands issued. */
  datatype Step = Step(roster: seq<Id>, out: seq<Command>)

  /** One entry of a full-sync snapshot: an id and its relationship state. */
  datatype Entry = Entry(id: Id, state: Relationship)

  /** Commands are only issued, never looked at again by the engine, so these
      views on a command list are what the contracts below talk about. */
  predicate NoTerminate(out: seq<Command>) {
    forall i :: 0 <= i < |out| ==> !out[i].Terminate?
  }

  predicate NoSave(out: seq<Command>) {
    forall i :: 0 <= i < |out| ==> !out[i].Save?
  }

  predicate NoGreet(out: seq<Command>) {
    forall i :: 0 <= i < |out| ==> !out[i].Greet?
  }

  /** Every accept and every friendAccepted is for `user`, and each occurs
      at most once. */
  predicate AcceptsOnly(out: seq<Command>, user: Id) {
    (forall i :: 0 <= i < |out| && (out[i].Accept? || out[i].FriendAccepted?) ==> out[i].id == user)
    && (forall i, j :: 0 <= i < j < |out| && out[i].Accept? ==> !out[j].Accept?)
    && (forall i, j :: 0 <= i < j < |out| && out[i].FriendAccepted? ==> !out[j].FriendAccepted?)
  }

  predicate NoWarn(out: seq<Command>) {
    forall i :: 0 <= i < |out| ==> !out[i].Warn?
  }

  /** Every friendRemoved is for `victim`. */
  predicate RemovesOnly(out: seq<Command>, victim: Id) {
    forall i :: 0 <= i < |out| && out[i].FriendRemoved? ==> out[i].id == victim
  }

  predicate NoRemoval(out: seq<Command>) {
    forall i :: 0 <= i < |out| ==> !out[i].FriendRemoved?
  }

  /** `addFriend` finds the list full but nobody to remove. */
  predicate Dropped(roster: seq<Id>, cfg: Config) {
    AtLimit(|roster|, cfg.limit) && |roster| == 0
  }

  /** `addFriend` finds the list full and evicts its oldest member. */
  predicate Evicts(roster: seq<Id>, cfg: Config) {
    AtLimit(|roster|, cfg.limit) && |roster| > 0
  }

  /** The greeting `addFriend` schedules for `user` on admission, if any. */
  function Greeting(cfg: Config, user: Id): (g: seq<Command>)
    ensures |g| <= 1
    ensures |g| == 1 <==> cfg.welcomeMessage.Str? && |cfg.welcomeMessage.s| > 0
    ensures |g| == 1 ==> g[0] == Greet(user, cfg.welcomeMessage.s)
  {
    if Greets(cfg) then [Greet(user, cfg.welcomeMessage.s)] else []
  }

  /** What `addFriend` issues on admission: the accept, the notices and the
      optional greeting, which comes last. */
  function AdmitCommands(cfg: Config, user: Id): (c: seq<Command>)
    ensures 3 <= |c| <= 4
    ensures c[0] == Accept(user) && c[1] == Info(Added(user)) && c[2] == FriendAccepted(user)
    ensures forall i :: 3 <= i < |c| ==> c[i].Greet?
    ensures NoTerminate(c) && NoSave(c)
    ensures AcceptsOnly(c, user) && NoWarn(c) && NoRemoval(c)
    ensures forall i :: 0 <= i < |c| && c[i].Greet? ==>
      i == |c| - 1 && cfg.welcomeMessage.Str? && c[i] == Greet(user, cfg.welcomeMessage.s)
    ensures !NoGreet(c) <==> cfg.welcomeMessage.Str? && |cfg.welcomeMessage.s| > 0
  {
    var c := [Accept(user), Info(Added(user)), FriendAccepted(user)] + Greeting(cfg, user);
    assert |Greeting(cfg, user)| == 1 ==> c[|c| - 1].Greet?;
    c
  }

  /** What `addFriend` issues when it evicts `victim`. */
  function EvictCommands(victim: Id): (c: seq<Command>)
    ensures |c| == 3 && c[0] == Terminate(victim) && c[2] == FriendRemoved(victim)
    ensures forall i :: 0 < i < |c| ==> !c[i].Terminate?
    ensures NoSave(c) && NoGreet(c)
  {
    [Terminate(victim), Info(Evicted(victim)), FriendRemoved(victim)]
  }

  /** The eviction commands followed by the admission commands: the
      terminate is first and alone, the accept comes after it. */
  lemma LemmaEvictThenAdmit(victim: Id, cfg: Config, user: Id)
    ensures
      var e, c := EvictCommands(victim), AdmitCommands(cfg, user);
      var out := e + c;
      6 <= |out| <= 7
      && out[0] == Terminate(victim) && out[1] == Info(Evicted(victim)) && out[2] == FriendRemoved(victim)
      && out[3] == Accept(user) && out[4] == Info(Added(user)) && out[5] == FriendAccepted(user)
      && (forall i :: 6 <= i < |out| ==> out[i].Greet?)
      && AcceptsOnly(out, user) && NoWarn(out) && RemovesOnly(out, victim)
      && (forall i :: 0 < i < |out| ==> !out[i].Terminate?)
      && NoSave(out)
      && (forall i :: 0 <= i < |out| && out[i].Greet? ==>
            i == |out| - 1 && cfg.welcomeMessage.Str? && out[i] == Greet(user, cfg.welcomeMessage.s))
      && (!NoGreet(out) <==> !NoGreet(c))
  {
    var e, c := EvictCommands(victim), AdmitCommands(cfg, user);
    var out := e + c;
    forall i | 3 <= i < |out| ensures out[i] == c[i - 3] {
    }
    if !NoGreet(c) {
      var k :| 0 <= k < |c| && c[k].Greet?;
      assert out[k + 3] == c[k];
    }
  }

  /** `addFriend(steamFriends, user)`: when the count equals the limit, the
      oldest member is terminated and removed (or, with nobody to remove, the
      request is dropped with a warning); then the user is accepted, added and
      optionally greeted. */
  function AddFriend(roster: seq<Id>, cfg: Config, user: Id): (r: Step)
    // Dropped request: nothing changes but a warning naming the user.
    ensures Dropped(roster, cfg) ==> r.roster == roster && r.out == [Warn(RequestDropped(user))]
    // Admission: the user is accepted and becomes the newest member.
    ensures !Dropped(roster, cfg) ==>
      |r.roster| > 0 && r.roster[|r.roster| - 1] == user && Accept(user) in r.out && FriendAccepted(user) in r.out
    // A terminate is issued exactly when evicting, and only for the oldest
    // member, as the very first command, before the accept.
    ensures !NoTerminate(r.out) <==> Evicts(roster, cfg)
    ensures forall i :: 0 <= i < |r.out| && r.out[i].Terminate? ==> i == 0 && r.out[i].id == roster[0]
    ensures Evicts(roster, cfg) ==>
      6 <= |r.out| <= 7
      && r.out[0] == Terminate(roster[0]) && r.out[1] == Info(Evicted(roster[0]))
      && r.out[2] == FriendRemoved(roster[0])
      && r.out[3] == Accept(user) && r.out[4] == Info(Added(user)) && r.out[5] == FriendAccepted(user)
      && r.roster == Add(Remove(roster, roster[0]), user)
    ensures Evicts(roster, cfg) ==> forall i :: 6 <= i < |r.out| ==> r.out[i].Greet?
    ensures !AtLimit(|roster|, cfg.limit) ==>
      3 <= |r.out| <= 4
      && r.out[0] == Accept(user) && r.out[1] == Info(Added(user)) && r.out[2] == FriendAccepted(user)
    // After the admission commands only the greeting can follow.
    ensures !AtLimit(|roster|, cfg.limit) ==> forall i :: 3 <= i < |r.out| ==> r.out[i].Greet?
    // Only the user is accepted, and at most once; a warning only for a
    // dropped request; a removal notice only for the evicted oldest member.
    ensures AcceptsOnly(r.out, user)
    ensures !Dropped(roster, cfg) ==> NoWarn(r.out)
    ensures !Evicts(roster, cfg) ==> NoRemoval(r.out)
    ensures Evicts(roster, cfg) ==> RemovesOnly(r.out, roster[0])
    // Below (or past) the limit the roster only gains the user.
    ensures !AtLimit(|roster|, cfg.limit) ==> r.roster == Add(roster, user)
    // Who is a member afterwards.
    ensures forall x :: x in r.roster <==>
      (x == user && !Dropped(roster, cfg)) || (x in roster && !(Evicts(roster, cfg) && x == roster[0]))
    // Counts, for a user not yet on the list.
    ensures Distinct(roster) && user !in roster && !AtLimit(|roster|, cfg.limit) ==> |r.roster| == |roster| + 1
    ensures Distinct(roster) && user !in roster && Evicts(roster, cfg) ==> |r.roster| == |roster|
    ensures Distinct(roster) ==> Distinct(r.roster)
    // With a numeric limit, a roster within the limit stays within it.
    ensures cfg.limit.Number? && Distinct(roster) && |roster| <= cfg.limit.n ==> |r.roster| <= cfg.limit.n
    // A greeting is scheduled exactly on admission with a non-empty text.
    ensures !NoGreet(r.out) <==>
      !Dropped(roster, cfg) && cfg.welcomeMessage.Str? && |cfg.welcomeMessage.s| > 0
    ensures forall i :: 0 <= i < |r.out| && r.out[i].Greet? ==>
      i == |r.out| - 1 && cfg.welcomeMessage.Str? && r.out[i] == Greet(user, cfg.welcomeMessage.s)
    ensures NoSave(r.out)
  {
    if AtLimit(|roster|, cfg.limit) then
      match GetOldestAdded(roster)
      case Nobody => Step(roster, [Warn(RequestDropped(user))])
      case Member(victim) =>
        LemmaEvictThenAdmit(victim, cfg, user);
        Step(Add(Remove(roster, victim), user), EvictCommands(victim) + AdmitCommands(cfg, user))
    else
      Step(Add(roster, user), AdmitCommands(cfg, user))
  }

  /** The `friend` event handler: a `RequestRecipient` state runs `addFriend`,
      a `None` state removes the user, any other state is ignored; the list is
      saved in every case. */
  function OnFriend(roster: seq<Id>, cfg: Config, user: Id, state: Relationship): (r: Step)
    // Exactly one save, issued last, of the roster as it ends up.
    ensures |r.out| > 0 && r.out[|r.out| - 1] == Save(r.roster)
    ensures NoSave(r.out[..|r.out| - 1])
    ensures state == RequestRecipient ==>
      r.roster == AddFriend(roster, cfg, user).roster
      && r.out[..|r.out| - 1] == AddFriend(roster, cfg, user).out
    // A severed relationship removes only that user.
    ensures state == None ==>
      r.out == [Save(r.roster)] && user !in r.roster
      && forall x :: x != user ==> (x in r.roster <==> x in roster)
    ensures state == None ==> r.roster == Remove(roster, user) && |r.roster| <= |roster|
    // Every other state leaves the roster as it was.
    ensures state != RequestRecipient && state != None ==> r.roster == roster && r.out == [Save(roster)]
    ensures Distinct(roster) ==> Distinct(r.roster)
    ensures cfg.limit.Number? && Distinct(roster) && |roster| <= cfg.limit.n ==> |r.roster| <= cfg.limit.n
  {
    var s :=
      match state
      case RequestRecipient => AddFriend(roster, cfg, user)
      case None => Step(Remove(roster, user), [])
      case _ => Step(roster, []);
    assert (s.out + [Save(s.roster)])[..|s.out|] == s.out;
    Step(s.roster, s.out + [Save(s.roster)])
  }

  /** The ids of a snapshot. */
  function Keys(snap: seq<Entry>): set<Id> {
    set e | e in snap :: e.id
  }

  /** The ids a snapshot lists as friends. */
  function FriendKeys(snap: seq<Entry>): set<Id> {
    set e | e in snap && e.state == Friend :: e.id
  }

  /** The snapshot holds no pending incoming request. */
  predicate NoRequests(snap: seq<Entry>) {
    forall e :: e in snap ==> e.state != RequestRecipient
  }

  /** The first loop of the `relationships` handler over one entry: a new
      `Friend` is added directly, with no eviction; a `RequestRecipient` runs
      `addFriend` with no membership check; other states are skipped. */
  function SyncEntry(roster: seq<Id>, cfg: Config, e: Entry): (r: Step)
    ensures e.state == Friend ==> r.out == [] && (e.id in roster ==> r.roster == roster)
    ensures e.state == Friend && e.id !in roster ==> r.roster == roster + [e.id]
    ensures e.state == RequestRecipient ==> r == AddFriend(roster, cfg, e.id)
    ensures e.state != Friend && e.state != RequestRecipient ==> r == Step(roster, [])
    ensures forall x :: x in r.roster ==> x in roster || x == e.id
    ensures Distinct(roster) ==> Distinct(r.roster)
    ensures NoSave(r.out)
    ensures e.state != RequestRecipient ==> |roster| <= |r.roster| && r.roster[..|roster|] == roster
    ensures e.state != RequestRecipient ==> r.roster == roster + Fresh(roster, e)
    ensures e.state == RequestRecipient && cfg.limit != Number(0) ==> Accept(e.id) in r.out
  {
    match e.state
    case Friend => if e.id in roster then Step(roster, []) else Step(Add(roster, e.id), [])
    case RequestRecipient => AddFriend(roster, cfg, e.id)
    case _ => Step(roster, [])
  }

  /** The first loop of the `relationships` handler: every snapshot entry in
      iteration order, each seeing the roster the previous ones left. */
  function SyncAdditions(roster: seq<Id>, cfg: Config, snap: seq<Entry>): (r: Step)
    ensures Distinct(roster) ==> Distinct(r.roster)
    ensures NoSave(r.out)
    ensures forall x :: x in r.roster ==> x in roster || x in Keys(snap)
    ensures NoRequests(snap) ==> r.out == []
    ensures NoRequests(snap) ==> forall x :: x in r.roster <==> x in roster || x in FriendKeys(snap)
    // Without requests the old members keep their places; new friends are
    // only appended.
    ensures NoRequests(snap) ==> |roster| <= |r.roster| && r.roster[..|roster|] == roster
    // ... precisely: the new friends, in snapshot order.
    ensures NoRequests(snap) ==> r.roster == roster + NewFriends(roster, snap)
    // Every pending request reaches `addFriend` and is accepted, unless the
    // limit is 0 (the only way a request can be dropped).
    ensures cfg.limit != Number(0) ==>
      forall e :: e in snap && e.state == RequestRecipient ==> Accept(e.id) in r.out
    decreases |snap|
  {
    if |snap| == 0 then Step(roster, [])
    else
      var first := SyncEntry(roster, cfg, snap[0]);
      var rest := SyncAdditions(first.roster, cfg, snap[1..]);
      LemmaKeysCons(snap);
      LemmaNoSaveConcat(first.out, rest.out);
      LemmaPrefixTrans(roster, first.roster, rest.roster);
      LemmaNewFriendsStep(roster, snap, first.roster, rest.roster);
      Step(rest.roster, first.out + rest.out)
  }

  /** How the key sets of a snapshot split at its first entry. */
  lemma LemmaKeysCons(snap: seq<Entry>)
    requires |snap| > 0
    ensures Keys(snap) == {snap[0].id} + Keys(snap[1..])
    ensures FriendKeys(snap) == (if snap[0].state == Friend then {snap[0].id} else {}) + FriendKeys(snap[1..])
    ensures NoRequests(snap) <==> snap[0].state != RequestRecipient && NoRequests(snap[1..])
    ensures forall e :: e in snap <==> e == snap[0] || e in snap[1..]
  {
    assert snap == [snap[0]] + snap[1..];
  }

  /** The id a `Friend` entry contributes when it is not yet a member. */
  function Fresh(roster: seq<Id>, e: Entry): seq<Id> {
    if e.state == Friend && e.id !in roster then [e.id] else []
  }

  /** Reference definition of what a request-free first loop appends to
      `roster`: in snapshot order, the id of every `Friend` entry that is
      neither a member of `roster` nor listed as a friend earlier in the
      snapshot. Defined from the last entry backwards, independently of the
      loop. */
  function NewFriends(roster: seq<Id>, snap: seq<Entry>): (r: seq<Id>)
    ensures forall x :: x in r <==> x in FriendKeys(snap) && x !in roster
    decreases |snap|
  {
    if |snap| == 0 then []
    else
      var prior, last := snap[..|snap| - 1], snap[|snap| - 1];
      LemmaKeysSnoc(prior, last);
      assert snap == prior + [last];
      NewFriends(roster, prior)
        + (if last.state == Friend && last.id !in roster && last.id !in FriendKeys(prior) then [last.id] else [])
  }

  /** How the friend ids of a snapshot split at its last entry. */
  lemma LemmaKeysSnoc(snap: seq<Entry>, e: Entry)
    ensures FriendKeys(snap + [e]) == FriendKeys(snap) + (if e.state == Friend then {e.id} else {})
  {
    forall x | x in snap + [e] ensures x in snap || x == e {
    }
  }

  /** `NewFriends` read from the front: the first entry contributes its id
      when fresh, and the rest is taken against the roster that includes it. */
  lemma {:induction false} LemmaNewFriendsCons(roster: seq<Id>, snap: seq<Entry>)
    requires |snap| > 0
    ensures NewFriends(roster, snap)
         == Fresh(roster, snap[0]) + NewFriends(roster + Fresh(roster, snap[0]), snap[1..])
    decreases |snap|
  {
    var h := Fresh(roster, snap[0]);
    if |snap| == 1 {
      assert snap[..0] == [] && snap[1..] == [];
    } else {
      var prior, last := snap[..|snap| - 1], snap[|snap| - 1];
      var rest := snap[1..];
      var tail := NewFriends(roster + h, prior[1..]);
      assert prior[0] == snap[0];
      LemmaNewFriendsCons(roster, prior);
      var t := if last.state == Friend && last.id !in roster && last.id !in FriendKeys(prior) then [last.id] else [];
      assert NewFriends(roster, snap) == (h + tail) + t;
      assert NewFriends(roster + h, rest) == tail + t by {
        assert rest[..|rest| - 1] == prior[1..] && rest[|rest| - 1] == last;
        LemmaFreshOnce(roster, prior, last);
      }
      assert (h + tail) + t == h + (tail + t);
    }
  }

  /** A later entry is fresh against the whole prefix exactly when it is
      fresh against the roster grown by the first entry and the rest of
      the prefix. */
  lemma LemmaFreshOnce(roster: seq<Id>, prior: seq<Entry>, last: Entry)
    requires |prior| > 0
    ensures (last.id !in roster && last.id !in FriendKeys(prior))
        <==> (last.id !in roster + Fresh(roster, prior[0]) && last.id !in FriendKeys(prior[1..]))
  {
    LemmaKeysCons(prior);
  }

  /** One turn of a request-free first loop, in terms of `NewFriends`. */
  lemma LemmaNewFriendsStep(roster: seq<Id>, snap: seq<Entry>, mid: seq<Id>, fin: seq<Id>)
    requires |snap| > 0
    ensures mid == roster + Fresh(roster, snap[0]) && fin == mid + NewFriends(mid, snap[1..])
      ==> fin == roster + NewFriends(roster, snap)
  {
    if mid == roster + Fresh(roster, snap[0]) && fin == mid + NewFriends(mid, snap[1..]) {
      LemmaNewFriendsCons(roster, snap);
      assert fin == roster + (Fresh(roster, snap[0]) + NewFriends(mid, snap[1..]));
    }
  }

  /** A prefix of a prefix is a prefix. */
  lemma LemmaPrefixTrans(a: seq<Id>, b: seq<Id>, c: seq<Id>)
    ensures |a| <= |b| && b[..|a|] == a && |b| <= |c| && c[..|b|] == b ==> |a| <= |c| && c[..|a|] == a
  {
    if |a| <= |b| && b[..|a|] == a && |b| <= |c| && c[..|b|] == b {
      assert c[..|a|] == b[..|a|];
    }
  }

  lemma LemmaNoSaveConcat(a: seq<Command>, b: seq<Command>)
    ensures NoSave(a) && NoSave(b) ==> NoSave(a + b)
  {
    if NoSave(a) && NoSave(b) {
      forall i | 0 <= i < |a + b| ensures !(a + b)[i].Save? {
        if i >= |a| { assert (a + b)[i] == b[i - |a|]; }
      }
    }
  }

  /** The second loop of the `relationships` handler: every member that is
      not a key of the snapshot is removed, the others keep their order. */
  function RemoveStale(roster: seq<Id>, keys: set<Id>): (r: seq<Id>)
    ensures forall x :: x in r <==> x in roster && x in keys
    ensures Distinct(roster) ==> Distinct(r)
    ensures |r| <= |roster|
    decreases |roster|
  {
    if |roster| == 0 then []
    else
      var rest := RemoveStale(roster[1..], keys);
      LemmaDistinctTail(roster);
      if roster[0] in keys then
        LemmaDistinctCons(roster[0], rest);
        [roster[0]] + rest
      else rest
  }

  /** The survivors of the removal pass keep their relative order, so the
      oldest survivor comes first. */
  lemma {:induction false} LemmaRemoveStaleKeepsOrder(roster: seq<Id>, keys: set<Id>)
    ensures IsSubsequence(RemoveStale(roster, keys), roster)
    decreases |roster|
  {
    if |roster| > 0 {
      var rest := RemoveStale(roster[1..], keys);
      LemmaRemoveStaleKeepsOrder(roster[1..], keys);
      if roster[0] in keys {
        assert ([roster[0]] + rest)[1..] == rest;
      } else {
        assert |rest| > 0 ==> rest[0] in keys && rest[0] != roster[0];
      }
    }
  }

  /** Filtering a concatenation filters each part. */
  lemma {:induction false} LemmaRemoveStaleAppend(a: seq<Id>, b: seq<Id>, keys: set<Id>)
    ensures RemoveStale(a + b, keys) == RemoveStale(a, keys) + RemoveStale(b, keys)
    decreases |a|
  {
    if |a| > 0 {
      var tail := a[1..];
      var head := if a[0] in keys then [a[0]] else [];
      assert (a + b)[0] == a[0] && (a + b)[1..] == tail + b;
      assert RemoveStale(a + b, keys) == head + RemoveStale(tail + b, keys);
      assert RemoveStale(a, keys) == head + RemoveStale(tail, keys);
      LemmaRemoveStaleAppend(tail, b, keys);
      assert head + (RemoveStale(tail, keys) + RemoveStale(b, keys))
          == (head + RemoveStale(tail, keys)) + RemoveStale(b, keys);
    } else {
      assert a + b == b;
    }
  }

  /** Removing stale members from a roster that holds none changes nothing. */
  lemma LemmaRemoveStaleNothingStale(roster: seq<Id>, keys: set<Id>)
    requires forall x :: x in roster ==> x in keys
    ensures RemoveStale(roster, keys) == roster
  {
    assert forall i :: 0 <= i < |roster| ==> roster[i] in keys;
    LemmaRemoveStaleAllListed(roster, keys);
  }

  lemma {:induction false} LemmaRemoveStaleAllListed(roster: seq<Id>, keys: set<Id>)
    requires forall i :: 0 <= i < |roster| ==> roster[i] in keys
    ensures RemoveStale(roster, keys) == roster
    decreases |roster|
  {
    if |roster| > 0 {
      LemmaListedTail(roster, keys);
      LemmaRemoveStaleAllListed(roster[1..], keys);
      LemmaRemoveStaleKept(roster, keys);
      LemmaSplitFirst(roster);
    }
  }

  lemma LemmaListedTail(roster: seq<Id>, keys: set<Id>)
    requires |roster| > 0 && forall i :: 0 <= i < |roster| ==> roster[i] in keys
    ensures forall i :: 0 <= i < |roster[1..]| ==> roster[1..][i] in keys
  {
    forall i | 0 <= i < |roster[1..]| ensures roster[1..][i] in keys {
      assert roster[1..][i] == roster[i + 1];
    }
  }

  /** A listed first member survives the removal pass. */
  lemma LemmaRemoveStaleKept(roster: seq<Id>, keys: set<Id>)
    requires |roster| > 0 && roster[0] in keys
    ensures RemoveStale(roster, keys) == [roster[0]] + RemoveStale(roster[1..], keys)
  {
  }

  /** A non-empty sequence is its first element followed by the rest. */
  lemma LemmaSplitFirst(s: seq<Id>)
    requires |s| > 0
    ensures s == [s[0]] + s[1..]
  {
  }

  /** The roster a request-free sync leaves: the listed old members in their
      order, then the new friends in snapshot order. */
  lemma LemmaSyncedRoster(roster: seq<Id>, cfg: Config, snap: seq<Entry>)
    ensures NoRequests(snap) ==>
      RemoveStale(SyncAdditions(roster, cfg, snap).roster, Keys(snap))
        == RemoveStale(roster, Keys(snap)) + NewFriends(roster, snap)
  {
    if NoRequests(snap) {
      var appended := NewFriends(roster, snap);
      assert forall x :: x in FriendKeys(snap) ==> x in Keys(snap);
      LemmaRemoveStaleAppend(roster, appended, Keys(snap));
      LemmaRemoveStaleNothingStale(appended, Keys(snap));
    }
  }

  /** Filtering a roster that extends `roster` keeps the filtered `roster`
      as its prefix. */
  lemma LemmaListedFirst(roster: seq<Id>, longer: seq<Id>, keys: set<Id>)
    ensures |roster| <= |longer| && longer[..|roster|] == roster ==>
      var listed := RemoveStale(roster, keys);
      |listed| <= |RemoveStale(longer, keys)| && RemoveStale(longer, keys)[..|listed|] == listed
  {
    if |roster| <= |longer| && longer[..|roster|] == roster {
      var extra := longer[|roster|..];
      assert longer == roster + extra;
      LemmaRemoveStaleAppend(roster, extra, keys);
    }
  }

  /** The removal loop as the handler runs it: walk the members in order
      and remove each one the snapshot does not list. Its effect is the
      filter `RemoveStale`. */
  method PruneDeadEntries(roster: seq<Id>, keys: set<Id>) returns (r: seq<Id>)
    requires Distinct(roster)
    ensures r == RemoveStale(roster, keys)
    ensures forall x :: x in r <==> x in roster && x in keys
  {
    r := roster;
    var i := 0;
    while i < |roster|
      invariant 0 <= i <= |roster|
      invariant r == RemoveStale(roster[..i], keys) + roster[i..]
    {
      var friend := roster[i];
      if friend in keys {
        LemmaPruneKeep(roster, i, keys);
      } else {
        LemmaPruneDrop(roster, i, keys);
        r := Remove(r, friend);
      }
      i := i + 1;
    }
    assert roster[..i] == roster;
  }

  /** The keep case of one turn: the listed member moves into the filtered part. */
  lemma LemmaPruneKeep(roster: seq<Id>, i: nat, keys: set<Id>)
    requires i < |roster| && roster[i] in keys
    ensures RemoveStale(roster[..i], keys) + roster[i..] == RemoveStale(roster[..i + 1], keys) + roster[i + 1..]
  {
    LemmaRemoveStaleStep(roster, i, keys);
    LemmaSliceAt(roster, i);
    LemmaRegroup(RemoveStale(roster[..i], keys), roster[i], roster[i + 1..]);
  }

  /** The drop case of one turn: the removed member occurs nowhere else. */
  lemma LemmaPruneDrop(roster: seq<Id>, i: nat, keys: set<Id>)
    requires Distinct(roster) && i < |roster| && roster[i] !in keys
    ensures Remove(RemoveStale(roster[..i], keys) + roster[i..], roster[i])
         == RemoveStale(roster[..i + 1], keys) + roster[i + 1..]
  {
    var done := RemoveStale(roster[..i], keys);
    LemmaRemoveStaleStep(roster, i, keys);
    LemmaSliceAt(roster, i);
    LemmaDistinctSplit(roster, i);
    LemmaRemoveSplit(done, roster[i], roster[i + 1..]);
  }

  /** The filtered prefix grows by one position at a time. */
  lemma LemmaRemoveStaleStep(roster: seq<Id>, i: nat, keys: set<Id>)
    requires i < |roster|
    ensures RemoveStale(roster[..i + 1], keys)
         == RemoveStale(roster[..i], keys) + (if roster[i] in keys then [roster[i]] else [])
  {
    assert roster[..i + 1] == roster[..i] + [roster[i]];
    LemmaRemoveStaleSnoc(roster[..i], roster[i], keys);
  }

  lemma LemmaSliceAt(s: seq<Id>, i: nat)
    requires i < |s|
    ensures s[i..] == [s[i]] + s[i + 1..]
  {
  }

  lemma LemmaRegroup(a: seq<Id>, x: Id, b: seq<Id>)
    ensures a + ([x] + b) == (a + [x]) + b
  {
  }

  /** Filtering a roster extended by one member filters that member last. */
  lemma {:induction false} LemmaRemoveStaleSnoc(s: seq<Id>, x: Id, keys: set<Id>)
    ensures RemoveStale(s + [x], keys) == RemoveStale(s, keys) + (if x in keys then [x] else [])
    decreases |s|
  {
    if |s| > 0 {
      assert (s + [x])[1..] == s[1..] + [x];
      LemmaRemoveStaleSnoc(s[1..], x, keys);
    }
  }

  /** The member at position `i` of a distinct roster occurs neither before
      nor after it. */
  lemma LemmaDistinctSplit(s: seq<Id>, i: nat)
    requires Distinct(s) && i < |s|
    ensures s[i] !in s[..i] && s[i] !in s[i + 1..]
  {
    forall j | 0 <= j < i ensures s[..i][j] != s[i] {
      assert s[..i][j] == s[j];
    }
    var later := s[i + 1..];
    forall j | 0 <= j < |later| ensures later[j] != s[i] {
      assert later[j] == s[i + 1 + j];
    }
  }

  /** Removing a member that occurs once, between `a` and `b`, joins them. */
  lemma {:induction false} LemmaRemoveSplit(a: seq<Id>, x: Id, b: seq<Id>)
    requires x !in a && x !in b
    ensures Remove(a + ([x] + b), x) == a + b
    decreases |a|
  {
    if |a| == 0 {
      assert a + ([x] + b) == [x] + b;
      assert ([x] + b)[1..] == b;
    } else {
      assert (a + ([x] + b))[1..] == a[1..] + ([x] + b);
      assert a[0] in a;
      LemmaRemoveSplit(a[1..], x, b);
      assert a + b == [a[0]] + (a[1..] + b);
    }
  }

  /** The `relationships` handler: additions for every snapshot entry first,
      then removal of members the snapshot does not list, then one save and
      the "synchronized" notice. */
  function OnRelationships(roster: seq<Id>, cfg: Config, snap: seq<Entry>): (r: Step)
    // No stale members remain.
    ensures forall x :: x in r.roster ==> x in Keys(snap)
    ensures Distinct(roster) ==> Distinct(r.roster)
    // It ends with exactly one save of the final roster, then the notice.
    ensures |r.out| >= 2
    ensures r.out[|r.out| - 2..] == [Save(r.roster), Info(Synchronized)]
    ensures NoSave(r.out[..|r.out| - 2])
    // Without pending requests nothing is accepted or terminated, and the
    // roster is the listed old members plus the friends.
    ensures NoRequests(snap) ==> r.out == [Save(r.roster), Info(Synchronized)]
    ensures NoRequests(snap) ==>
      forall x :: x in r.roster <==> (x in roster && x in Keys(snap)) || x in FriendKeys(snap)
    // ... and the listed old members keep their order, ahead of the new friends.
    ensures NoRequests(snap) ==>
      var listed := RemoveStale(roster, Keys(snap));
      |listed| <= |r.roster| && r.roster[..|listed|] == listed
    ensures NoRequests(snap) ==> r.roster == RemoveStale(roster, Keys(snap)) + NewFriends(roster, snap)
    // Every pending request is accepted, unless the limit is 0.
    ensures cfg.limit != Number(0) ==>
      forall e :: e in snap && e.state == RequestRecipient ==> Accept(e.id) in r.out
  {
    var added := SyncAdditions(roster, cfg, snap);
    var kept := RemoveStale(added.roster, Keys(snap));
    LemmaListedFirst(roster, added.roster, Keys(snap));
    LemmaSyncedRoster(roster, cfg, snap);
    var out := added.out + [Save(kept), Info(Synchronized)];
    assert out[..|out| - 2] == added.out;
    assert forall x :: x in FriendKeys(snap) ==> x in Keys(snap);
    Step(kept, out)
  }
}
