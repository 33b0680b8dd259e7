/** The two vote counts over the peers' answers: which address most peers name
  * (`MajorityAnswer`, boot role) and which one a strict majority of the membership
  * names (`ConsensusAnswer`, ghost-master watcher). */
module Tally {
  import opened Wrappers
  import opened Text

  /** Two spellings of one host are one vote. */
  function Key(a: Address): Address {
    (NormalizeHost(a.0), a.1)
  }

  function Keys(answers: seq<Address>): (keys: seq<Address>)
    ensures |keys| == |answers|
    ensures forall i | 0 <= i < |answers| :: keys[i] == Key(answers[i])
  {
    seq(|answers|, i requires 0 <= i < |answers| => Key(answers[i]))
  }

  function Votes<K(==)>(keys: seq<K>, key: K): nat {
    if keys == [] then 0
    else Votes(keys[..|keys| - 1], key) + (if keys[|keys| - 1] == key then 1 else 0)
  }

  /** Answer `i` is the first one with its key. */
  predicate FirstSeen<K(==)>(keys: seq<K>, i: int) {
    0 <= i < |keys| && forall j | 0 <= j < i :: keys[j] != keys[i]
  }

  /** One entry of the tally: a key, its votes so far, and the answer that opened it. */
  datatype Entry = Entry(key: Address, votes: nat, original: Address)

  ghost predicate HasEntry(tally: seq<Entry>, key: Address) {
    exists i :: 0 <= i < |tally| && tally[i].key == key
  }

  /** The tally after some answers; entry `i` was opened by answer `at[i]`. */
  ghost predicate Tallied(tally: seq<Entry>, keys: seq<Address>, answers: seq<Address>, at: seq<int>) {
    && |at| == |tally| && |keys| <= |answers|
    && (forall i | 0 <= i < |tally| ::
          && FirstSeen(keys, at[i]) && keys[at[i]] == tally[i].key && answers[at[i]] == tally[i].original
          && tally[i].votes == Votes(keys, tally[i].key))
    && (forall i, j | 0 <= i < j < |at| :: at[i] < at[j])
    && (forall k {:trigger HasEntry(tally, keys[k])} :: 0 <= k < |keys| ==> HasEntry(tally, keys[k]))
  }

  lemma {:induction false} UnseenHasNoVotes<K>(keys: seq<K>, key: K)
    requires key !in keys
    ensures Votes(keys, key) == 0
  {
    if keys != [] {
      UnseenHasNoVotes(keys[..|keys| - 1], key);
    }
  }

  /** Votes for two different keys together are at most the number of answers. */
  lemma {:induction false} VotesShareTheAnswers<K>(keys: seq<K>, k1: K, k2: K)
    requires k1 != k2
    ensures Votes(keys, k1) + Votes(keys, k2) <= |keys|
  {
    if keys != [] {
      VotesShareTheAnswers(keys[..|keys| - 1], k1, k2);
    }
  }

  lemma TallyHit(tally: seq<Entry>, keys: seq<Address>, answers: seq<Address>, at: seq<int>, key: Address, e: nat)
    requires Tallied(tally, keys, answers, at) && |keys| < |answers|
    requires e < |tally| && tally[e].key == key
    ensures Tallied(tally[e := tally[e].(votes := tally[e].votes + 1)], keys + [key], answers, at)
  {
    var next := tally[e := tally[e].(votes := tally[e].votes + 1)];
    forall i | 0 <= i < |tally| && i != e
      ensures tally[i].key != key
    {
      assert FirstSeen(keys, at[i]) && FirstSeen(keys, at[e]);
    }
    forall k | 0 <= k < |keys + [key]|
      ensures HasEntry(next, (keys + [key])[k])
    {
      if k < |keys| {
        assert HasEntry(tally, keys[k]);
        var i :| 0 <= i < |tally| && tally[i].key == keys[k];
        assert next[i].key == keys[k];
      } else {
        assert next[e].key == key;
      }
    }
  }

  lemma TallyMiss(tally: seq<Entry>, keys: seq<Address>, answers: seq<Address>, at: seq<int>, key: Address)
    requires Tallied(tally, keys, answers, at) && |keys| < |answers|
    requires !HasEntry(tally, key)
    ensures Tallied(tally + [Entry(key, 1, answers[|keys|])], keys + [key], answers, at + [|keys|])
  {
    forall k | 0 <= k < |keys|
      ensures keys[k] != key
    {
      assert HasEntry(tally, keys[k]);
    }
    UnseenHasNoVotes(keys, key);
    var next := tally + [Entry(key, 1, answers[|keys|])];
    forall k | 0 <= k < |keys + [key]|
      ensures HasEntry(next, (keys + [key])[k])
    {
      if k < |keys| {
        assert HasEntry(tally, keys[k]);
        var i :| 0 <= i < |tally| && tally[i].key == keys[k];
        assert next[i].key == keys[k];
      } else {
        assert next[|tally|].key == key;
      }
    }
  }

  method Count(answers: seq<Address>) returns (tally: seq<Entry>, ghost at: seq<int>)
    ensures Tallied(tally, Keys(answers), answers, at)
  {
    tally, at := [], [];
    ghost var keys := Keys(answers);
    for n := 0 to |answers|
      invariant Tallied(tally, keys[..n], answers, at)
    {
      var key := Key(answers[n]);
      var e := 0;
      while e < |tally| && tally[e].key != key
        invariant 0 <= e <= |tally|
        invariant forall i | 0 <= i < e :: tally[i].key != key
      {
        e := e + 1;
      }
      assert keys[..n + 1] == keys[..n] + [key];
      if e < |tally| {
        TallyHit(tally, keys[..n], answers, at, key, e);
        tally := tally[e := tally[e].(votes := tally[e].votes + 1)];
      } else {
        TallyMiss(tally, keys[..n], answers, at, key);
        tally := tally + [Entry(key, 1, answers[n])];
        at := at + [n];
      }
    }
    assert keys[..|answers|] == keys;
  }

  // ----- the two verdicts -------------------------------------------------------------

  /** Answer `i` opened the key with the most votes, the earliest such key on a tie. */
  ghost predicate IsMajority<K>(keys: seq<K>, i: int) {
    && FirstSeen(keys, i)
    && (forall j | 0 <= j < |keys| :: Votes(keys, keys[j]) <= Votes(keys, keys[i]))
    && (forall j | 0 <= j < i :: Votes(keys, keys[j]) < Votes(keys, keys[i]))
  }

  lemma MajorityOfTally(tally: seq<Entry>, keys: seq<Address>, answers: seq<Address>, at: seq<int>, b: nat)
    requires Tallied(tally, keys, answers, at) && b < |tally|
    requires forall i | 0 <= i < |tally| :: tally[i].votes <= tally[b].votes
    requires forall i | 0 <= i < b :: tally[i].votes < tally[b].votes
    ensures IsMajority(keys, at[b])
  {
    forall j | 0 <= j < |keys|
      ensures Votes(keys, keys[j]) <= Votes(keys, keys[at[b]])
      ensures j < at[b] ==> Votes(keys, keys[j]) < Votes(keys, keys[at[b]])
    {
      assert HasEntry(tally, keys[j]);
      var i :| 0 <= i < |tally| && tally[i].key == keys[j];
      assert FirstSeen(keys, at[i]) && keys[at[i]] == keys[j];
      assert at[i] <= j;
    }
  }

  /** The earliest of the first `n` answers whose key has the most votes. */
  function Leader<K(==)>(keys: seq<K>, n: nat): (i: nat)
    requires 0 < n <= |keys|
    ensures i < n
    ensures forall j | 0 <= j < n :: Votes(keys, keys[j]) <= Votes(keys, keys[i])
    ensures forall j | 0 <= j < i :: Votes(keys, keys[j]) < Votes(keys, keys[i])
  {
    if n == 1 then 0
    else
      var i := Leader(keys, n - 1);
      if Votes(keys, keys[n - 1]) > Votes(keys, keys[i]) then n - 1 else i
  }

  lemma LeaderIsMajority<K>(keys: seq<K>)
    requires keys != []
    ensures IsMajority(keys, Leader(keys, |keys|))
  {
    var i := Leader(keys, |keys|);
    var most := Votes(keys, keys[i]);
  }

  /** The answer most peers agree on, as its first supporter spelled it. */
  function MajorityOf(answers: seq<Address>): Option<Address> {
    if answers == [] then None else Some(answers[Leader(Keys(answers), |answers|)])
  }

  method MajorityAnswer(answers: seq<Address>) returns (r: Option<Address>)
    ensures r == MajorityOf(answers)
    ensures r.Some? ==> exists i :: IsMajority(Keys(answers), i) && answers[i] == r.value
  {
    var tally, at := Count(answers);
    assert answers != [] ==> HasEntry(tally, Keys(answers)[0]);
    var best: Option<nat> := None;
    for e := 0 to |tally|
      invariant best.None? <==> e == 0
      invariant best.Some? ==> best.value < e
      invariant best.Some? ==> forall i | 0 <= i < e :: tally[i].votes <= tally[best.value].votes
      invariant best.Some? ==> forall i | 0 <= i < best.value :: tally[i].votes < tally[best.value].votes
    {
      if best.None? || tally[e].votes > tally[best.value].votes {
        best := Some(e);
      }
    }
    if best.None? {
      return None;
    }
    ghost var keys := Keys(answers);
    MajorityOfTally(tally, keys, answers, at, best.value);
    LeaderIsMajority(keys);
    MajorityIsUnique(keys, at[best.value], Leader(keys, |keys|));
    return Some(tally[best.value].original);
  }

  /** A key with at least two votes and more than half of the membership. */
  predicate IsConsensus<K(==)>(keys: seq<K>, membership: nat, key: K) {
    Votes(keys, key) >= 2 && Votes(keys, key) * 2 > membership
  }

  /** `r` is a consensus, as answer `i`, its first supporter, spelled it; or there is none. */
  ghost predicate IsConsensusAnswer(answers: seq<Address>, membership: nat, r: Option<Address>, i: int) {
    var keys := Keys(answers);
    match r
    case Some(a) => FirstSeen(keys, i) && answers[i] == a && IsConsensus(keys, membership, keys[i])
    case None => forall key :: !IsConsensus(keys, membership, key)
  }

  /** The address a strict majority of the membership agrees on, at least two of them. */
  method ConsensusAnswer(answers: seq<Address>, membership: nat) returns (r: Option<Address>, ghost i: int)
    ensures IsConsensusAnswer(answers, membership, r, i)
    ensures |answers| <= membership ==> r == if HasConsensus(answers, membership) then MajorityOf(answers) else None
  {
    i := 0;
    ghost var keys := Keys(answers);
    var tally, at := Count(answers);
    var best: Option<nat> := None;
    for e := 0 to |tally|
      invariant best.None? <==> e == 0
      invariant best.Some? ==> best.value < e
      invariant best.Some? ==> forall i | 0 <= i < e :: tally[i].votes <= tally[best.value].votes
    {
      if best.None? || tally[e].votes >= tally[best.value].votes {
        best := Some(e);
      }
    }
    if best.None? || !(tally[best.value].votes >= 2 && tally[best.value].votes * 2 > membership) {
      forall key
        ensures !IsConsensus(keys, membership, key)
      {
        if key in keys {
          var k :| 0 <= k < |keys| && keys[k] == key;
          assert HasEntry(tally, keys[k]);
          var e :| 0 <= e < |tally| && tally[e].key == keys[k];
        } else {
          UnseenHasNoVotes(keys, key);
        }
      }
      return None, 0;
    }
    r, i := Some(tally[best.value].original), at[best.value];
    if |answers| <= membership {
      TalliesAgree(answers, membership, r, i);
    }
  }

  /** An answer that is given has at least two votes and more than half of the membership, and where
    * none is given no address has both. */
  lemma ConsensusMeans(answers: seq<Address>, membership: nat, r: Option<Address>, i: int)
    requires IsConsensusAnswer(answers, membership, r, i)
    ensures r.Some? ==> Votes(Keys(answers), Key(r.value)) >= 2 && 2 * Votes(Keys(answers), Key(r.value)) > membership
    ensures r.None? ==> forall key :: Votes(Keys(answers), key) < 2 || 2 * Votes(Keys(answers), key) <= membership
  {
    if r.None? {
      forall key
        ensures Votes(Keys(answers), key) < 2 || 2 * Votes(Keys(answers), key) <= membership
      {
        assert !IsConsensus(Keys(answers), membership, key);
      }
    }
  }

  /** With no more answers than members there is at most one consensus key. */
  lemma ConsensusIsUnique<K>(keys: seq<K>, membership: nat, k1: K, k2: K)
    requires |keys| <= membership
    requires IsConsensus(keys, membership, k1) && IsConsensus(keys, membership, k2)
    ensures k1 == k2
  {
    if k1 != k2 {
      VotesShareTheAnswers(keys, k1, k2);
    }
  }

  lemma ConsensusLeads<K>(keys: seq<K>, membership: nat, i: int, m: int)
    requires |keys| <= membership
    requires FirstSeen(keys, i) && IsConsensus(keys, membership, keys[i])
    requires IsMajority(keys, m)
    ensures i == m
  {
    ConsensusIsUnique(keys, membership, keys[i], keys[m]);
  }

  lemma ConsensusIsSeen<K>(keys: seq<K>, membership: nat, key: K) returns (i: nat)
    requires IsConsensus(keys, membership, key)
    ensures i < |keys| && keys[i] == key && FirstSeen(keys, i)
  {
    if key !in keys {
      UnseenHasNoVotes(keys, key);
    }
    i := 0;
    while keys[i] != key
      invariant i < |keys| && key in keys[i..]
      invariant forall j | 0 <= j < i :: keys[j] != key
      decreases |keys| - i
    {
      i := i + 1;
    }
  }

  /** Some address has at least two votes and more than half of the membership. */
  ghost predicate HasConsensus(answers: seq<Address>, membership: nat) {
    exists key :: IsConsensus(Keys(answers), membership, key)
  }

  /** With no more answers than members the two tallies agree: the stricter one answers
    * exactly when some address has a consensus, and then both give the same answer, in the
    * spelling of its first supporter. */
  lemma TalliesAgree(answers: seq<Address>, membership: nat, r: Option<Address>, i: int)
    requires |answers| <= membership && IsConsensusAnswer(answers, membership, r, i)
    ensures r == if HasConsensus(answers, membership) then MajorityOf(answers) else None
  {
    var keys := Keys(answers);
    if key :| IsConsensus(keys, membership, key) {
      var k := ConsensusIsSeen(keys, membership, key);
      LeaderIsMajority(keys);
      ConsensusLeads(keys, membership, i, Leader(keys, |keys|));
    }
  }

  /** The majority answer is one answer, not one of several. */
  lemma MajorityIsUnique<K>(keys: seq<K>, i: int, m: int)
    requires IsMajority(keys, i) && IsMajority(keys, m)
    ensures i == m
  {
    var mostOfI, mostOfM := Votes(keys, keys[i]), Votes(keys, keys[m]);
  }
}
