/** The friends-list store, modelled abstractly.

    The store's own implementation is not part of this model. It is keyed by
    SteamID and remembers the order in which ids were added, so it is
    represented here as a sequence of distinct ids with the OLDEST member at
    index 0 and the newest at the end:
    - `Add` appends; for an id already present the model assumes the store
      keeps one entry and treats it as the newest,
    - `Remove` deletes the id if present,
    - the count is the length of the sequence,
    - `GetOldestAdded` is the first element, or `Nobody` when empty. */
module Roster {

  /** An opaque SteamID64 string. */
  type Id = string

  /** No id occurs twice: the store is keyed by id. */
  predicate Distinct(s: seq<Id>) {
    forall i, j :: 0 <= i < j < |s| ==> s[i] != s[j]
  }

  /** Result of `getOldestAdded`: a member, or nobody (the store's `null`). */
  datatype Oldest = Nobody | Member(id: Id)

  /** Deletes `id` from the roster; a no-op when it is not a member. The
      relative order of the remaining members is kept. */
  function Remove(s: seq<Id>, id: Id): (r: seq<Id>)
    ensures forall x :: x in r <==> x in s && x != id
    ensures |r| <= |s|
    ensures id !in s ==> r == s
    ensures Distinct(s) ==> Distinct(r)
    ensures Distinct(s) && id in s ==> |r| == |s| - 1
    decreases |s|
  {
    if |s| == 0 then []
    else if s[0] == id then
      LemmaDistinctTail(s);
      Remove(s[1..], id)
    else
      var rest := Remove(s[1..], id);
      LemmaDistinctTail(s);
      LemmaDistinctCons(s[0], rest);
      [s[0]] + rest
  }

  /** The tail of a distinct roster is distinct and does not hold its head. */
  lemma LemmaDistinctTail(s: seq<Id>)
    requires |s| > 0
    ensures Distinct(s) ==> Distinct(s[1..]) && s[0] !in s[1..]
  {
    if Distinct(s) {
      forall j | 0 <= j < |s[1..]| ensures s[1..][j] != s[0] {
        assert s[1..][j] == s[j + 1];
      }
    }
  }

  /** Putting an id that is not yet present in front of a distinct roster
      keeps it distinct. */
  lemma LemmaDistinctCons(x: Id, t: seq<Id>)
    ensures Distinct(t) && x !in t ==> Distinct([x] + t)
  {
    if Distinct(t) && x !in t {
      var s := [x] + t;
      forall i, j | 0 <= i < j < |s| ensures s[i] != s[j] {
        assert s[j] == t[j - 1];
        if i > 0 { assert s[i] == t[i - 1]; }
      }
    }
  }

  /** Adds `id` as the most recently added member. */
  function Add(s: seq<Id>, id: Id): (r: seq<Id>)
    ensures |r| > 0 && r[|r| - 1] == id
    ensures forall x :: x in r <==> x in s || x == id
    ensures id !in s ==> r == s + [id]
    ensures Distinct(s) ==> Distinct(r)
    ensures Distinct(s) ==> |r| == if id in s then |s| else |s| + 1
    ensures Remove(r, id) == Remove(s, id)
  {
    var rest := Remove(s, id);
    LemmaRemoveAppend(rest, id);
    LemmaRemoveIdempotent(s, id);
    rest + [id]
  }

  /** The member added longest ago, or `Nobody` for an empty roster. */
  function GetOldestAdded(s: seq<Id>): (r: Oldest)
    ensures r.Nobody? <==> |s| == 0
    ensures r.Member? ==> r.id in s && forall x :: x in s ==> Index(s, r.id) <= Index(s, x)
  {
    if |s| == 0 then Nobody else Member(s[0])
  }

  /** `a` is `b` with some members left out: what remains keeps its
      relative order. */
  predicate IsSubsequence(a: seq<Id>, b: seq<Id>)
    decreases |b|
  {
    |a| == 0 || (|b| > 0 && if a[0] == b[0] then IsSubsequence(a[1..], b[1..]) else IsSubsequence(a, b[1..]))
  }

  /** Position of a member in the roster: its rank in insertion order. */
  function Index(s: seq<Id>, x: Id): (k: nat)
    requires x in s
    ensures k < |s| && s[k] == x
    ensures forall j :: 0 <= j < k ==> s[j] != x
  {
    if s[0] == x then 0 else 1 + Index(s[1..], x)
  }

  /** Removing an id that is not in `s` from `s + [id]` gives back `s`. */
  lemma {:induction false} LemmaRemoveAppend(s: seq<Id>, id: Id)
    requires id !in s
    ensures Remove(s + [id], id) == s
    decreases |s|
  {
    if |s| == 0 {
      assert Remove([id], id) == Remove([], id);
    } else {
      assert (s + [id])[1..] == s[1..] + [id];
      LemmaRemoveAppend(s[1..], id);
      assert s == [s[0]] + s[1..];
    }
  }

  /** Removing the same id twice is the same as removing it once. */
  lemma LemmaRemoveIdempotent(s: seq<Id>, id: Id)
    ensures Remove(Remove(s, id), id) == Remove(s, id)
  {
  }

  /** Removal from a distinct roster cuts out exactly the one position that
      held the id: an independent, index-based description of `Remove`. */
  lemma {:induction false} LemmaRemoveIsSplice(s: seq<Id>, id: Id)
    requires Distinct(s) && id in s
    ensures Remove(s, id) == s[..Index(s, id)] + s[Index(s, id) + 1..]
    decreases |s|
  {
    LemmaDistinctTail(s);
    if s[0] != id {
      var t := s[1..];
      LemmaRemoveIsSplice(t, id);
      var k := Index(t, id);
      assert Index(s, id) == k + 1;
      assert s[..k + 1] == [s[0]] + t[..k];
      assert s[k + 2..] == t[k + 1..];
    }
  }

  /** After a removal, the next oldest member is the first one that was not
      removed: the oldest lookup follows the new minimum. */
  lemma {:induction false} LemmaOldestAfterRemove(s: seq<Id>, id: Id)
    requires Distinct(s)
    ensures |s| == 0 ==> GetOldestAdded(Remove(s, id)) == Nobody
    ensures |s| > 0 && s[0] != id ==> GetOldestAdded(Remove(s, id)) == Member(s[0])
    ensures |s| > 1 && s[0] == id ==> GetOldestAdded(Remove(s, id)) == Member(s[1])
    ensures |s| == 1 && s[0] == id ==> GetOldestAdded(Remove(s, id)) == Nobody
  {
    if |s| > 1 && s[0] == id {
      assert s[1..][0] == s[1] && s[1] != id;
    }
  }
}
