/** Governance votes (src/governance-object.cpp, src/governance-votedb.cpp): the vote file of an object and
    the record each masternode has on each signal. Time and outcome of a record do not depend on the order of
    delivery; the text of a record and the contents of the file do, except under conditions given below. */
module Votes {

  /** What a vote's hash is computed from; the signature and the multiple-choice text are not part of it. */
  datatype VoteHash = VoteHash(mn: nat, parent: nat, signal: int, outcome: int, time: int)

  datatype Vote = Vote(mn: nat, parent: nat, signal: int, outcome: int, time: int, choice: string) {
    function GetHash(): VoteHash { VoteHash(mn, parent, signal, outcome, time) }
  }

  ghost predicate Distinct(list: seq<Vote>) {
    forall i, j | 0 <= i < j < |list| :: list[i].GetHash() != list[j].GetHash()
  }

  /** Same masternode, same object, same signal, and older. */
  predicate Supersedes(vote: Vote, other: Vote) {
    other.mn == vote.mn && other.parent == vote.parent && other.signal == vote.signal && other.time < vote.time
  }

  predicate SupersedesHash(vote: Vote, h: VoteHash) {
    h.mn == vote.mn && h.parent == vote.parent && h.signal == vote.signal && h.time < vote.time
  }

  ghost function Filter(list: seq<Vote>, drop: Vote -> bool): seq<Vote> {
    if list == [] then []
    else
      var n := |list| - 1;
      Filter(list[..n], drop) + if drop(list[n]) then [] else [list[n]]
  }

  lemma {:induction false} FilterMembers(list: seq<Vote>, drop: Vote -> bool, v: Vote)
    ensures v in Filter(list, drop) <==> v in list && !drop(v)
  {
    if list != [] {
      var n := |list| - 1;
      FilterMembers(list[..n], drop, v);
      assert list == list[..n] + [list[n]];
    }
  }

  lemma FilterStep(list: seq<Vote>, j: nat, drop: Vote -> bool)
    requires j < |list|
    ensures Filter(list[..j + 1], drop) == Filter(list[..j], drop) + if drop(list[j]) then [] else [list[j]]
  {
    assert list[..j + 1][..j] == list[..j];
  }

  /** How the list looks in the loop: the part before j filtered, the rest untouched. */
  ghost function Swept(start: seq<Vote>, j: nat, drop: Vote -> bool): seq<Vote>
    requires j <= |start|
  {
    Filter(start[..j], drop) + start[j..]
  }

  lemma SweepStep(start: seq<Vote>, j: nat, drop: Vote -> bool)
    requires j < |start|
    ensures var i := |Filter(start[..j], drop)|;
            var list := Swept(start, j, drop);
            && i < |list| && list[i] == start[j]
            && Swept(start, j + 1, drop) == (if drop(start[j]) then list[..i] + list[i + 1..] else list)
            && |Filter(start[..j + 1], drop)| == if drop(start[j]) then i else i + 1
  {
    hide Filter;
    FilterStep(start, j, drop);
  }

  lemma SweepEnds(start: seq<Vote>, drop: Vote -> bool)
    ensures Swept(start, 0, drop) == start && |Filter(start[..0], drop)| == 0
    ensures Swept(start, |start|, drop) == Filter(start, drop)
  {
    assert start[..0] == [] && start[0..] == start && start[..|start|] == start && start[|start|..] == [];
  }

  /** No hash occurs twice, and the index leads to exactly the votes of the list. */
  ghost predicate IndexOk(list: seq<Vote>, index: map<VoteHash, Vote>) {
    && Distinct(list)
    && (forall v | v in list :: v.GetHash() in index && index[v.GetHash()] == v)
    && (forall h | h in index :: index[h] in list && index[h].GetHash() == h)
  }

  lemma EraseMembers(list: seq<Vote>, i: nat, v: Vote)
    requires Distinct(list) && i < |list|
    ensures v in list[..i] + list[i + 1..] <==> v in list && v.GetHash() != list[i].GetHash()
  {
    var rest := list[..i] + list[i + 1..];
    assert list == list[..i] + [list[i]] + list[i + 1..];
    if v in rest {
      var j :| 0 <= j < |rest| && rest[j] == v;
      assert v == if j < i then list[j] else list[j + 1];
    }
  }

  lemma EraseOne(list: seq<Vote>, index: map<VoteHash, Vote>, i: nat)
    requires IndexOk(list, index) && i < |list|
    ensures IndexOk(list[..i] + list[i + 1..], index - {list[i].GetHash()})
  {
    hide Distinct;
    var rest := list[..i] + list[i + 1..];
    forall v
      ensures v in rest <==> v in list && v.GetHash() != list[i].GetHash()
    {
      EraseMembers(list, i, v);
    }
    EraseDistinct(list, i);
  }

  lemma EraseDistinct(list: seq<Vote>, i: nat)
    requires Distinct(list) && i < |list|
    ensures Distinct(list[..i] + list[i + 1..])
  {
  }

  lemma PushFront(list: seq<Vote>, index: map<VoteHash, Vote>, v: Vote)
    requires IndexOk(list, index) && v.GetHash() !in index
    ensures IndexOk([v] + list, index[v.GetHash() := v])
  {
    assert forall i | 0 <= i < |list| :: list[i] in list;
  }

  ghost predicate HasHash(list: seq<Vote>, h: VoteHash) {
    exists v :: v in list && v.GetHash() == h
  }

  /** The first vote of every hash, in order. */
  ghost function Firsts(list: seq<Vote>): seq<Vote> {
    if list == [] then []
    else
      var n := |list| - 1;
      var r := Firsts(list[..n]);
      if HasHash(r, list[n].GetHash()) then r else r + [list[n]]
  }

  lemma FirstsStep(list: seq<Vote>, j: nat)
    requires j < |list|
    ensures var r := Firsts(list[..j]);
            Firsts(list[..j + 1]) == if HasHash(r, list[j].GetHash()) then r else r + [list[j]]
  {
    assert list[..j + 1][..j] == list[..j];
  }

  /** Nothing is made up, and no hash is lost. */
  lemma {:induction false} FirstsKeep(list: seq<Vote>, h: VoteHash)
    ensures forall v | v in Firsts(list) :: v in list
    ensures HasHash(Firsts(list), h) <==> HasHash(list, h)
  {
    if list != [] {
      var n := |list| - 1;
      FirstsKeep(list[..n], h);
      var r := Firsts(list[..n]);
      assert list == list[..n] + [list[n]];
      if HasHash(list[..n], h) {
        var v :| v in r && v.GetHash() == h;
        assert v in Firsts(list);
      } else if list[n].GetHash() == h {
        assert list[n] in Firsts(list) && list[n] in list;
      }
    }
  }

  lemma IndexAnswers(list: seq<Vote>, index: map<VoteHash, Vote>, h: VoteHash)
    requires IndexOk(list, index)
    ensures h in index <==> HasHash(list, h)
  {
    if h in index {
      assert index[h] in list;
    }
  }

  /** No vote is made up, and exactly the hashes there were are in the index. */
  ghost predicate KeepsHashes(start: seq<Vote>, list: seq<Vote>, index: map<VoteHash, Vote>) {
    && (forall v | v in list :: v in start)
    && (forall h :: h in index <==> HasHash(start, h))
  }

  lemma Rebuilt(start: seq<Vote>, list: seq<Vote>, index: map<VoteHash, Vote>)
    requires list == Firsts(start) && IndexOk(list, index)
    ensures KeepsHashes(start, list, index)
  {
    hide IndexOk, Firsts, HasHash;
    forall v | v in list
      ensures v in start
    {
      FirstsKeep(start, v.GetHash());
    }
    forall h
      ensures h in index <==> HasHash(start, h)
    {
      FirstsKeep(start, h);
      IndexAnswers(list, index, h);
    }
  }

  lemma FirstsNil()
    ensures Firsts([]) == [] && IndexOk([], map[])
  {
  }

  lemma AppendIndex(list: seq<Vote>, index: map<VoteHash, Vote>, v: Vote)
    requires IndexOk(list, index)
    ensures HasHash(list, v.GetHash()) <==> v.GetHash() in index
    ensures v.GetHash() !in index ==> IndexOk(list + [v], index[v.GetHash() := v])
  {
    assert forall i | 0 <= i < |list| :: list[i] in list;
    if v.GetHash() in index {
      assert index[v.GetHash()] in list;
    }
  }

  class VoteFile {
    var nMemoryVotes: int
    var listVotes: seq<Vote>
    /** The iterator a hash maps to, by the vote it points at. */
    var mapVoteIndex: map<VoteHash, Vote>

    ghost predicate Valid()
      reads this
    {
      IndexOk(listVotes, mapVoteIndex) && nMemoryVotes == |listVotes|
    }

    constructor ()
      ensures Valid() && listVotes == []
    {
      nMemoryVotes, listVotes, mapVoteIndex := 0, [], map[];
    }

    predicate HasVote(h: VoteHash)
      reads this
    {
      h in mapVoteIndex
    }

    lemma HasVoteIsMembership(h: VoteHash)
      requires Valid()
      ensures HasVote(h) <==> exists v :: v in listVotes && v.GetHash() == h
    {
      if HasVote(h) {
        assert mapVoteIndex[h] in listVotes;
      }
    }

    /** The erase-while-iterating loops: drops the votes that match, from the list, the index and the counter. */
    method RemoveIf(drop: Vote -> bool)
      requires Valid()
      modifies this
      ensures Valid() && listVotes == Filter(old(listVotes), drop)
    {
      hide IndexOk, Filter, Swept;
      ghost var start := listVotes;
      ghost var j := 0;
      var i := 0;
      SweepEnds(start, drop);
      while i < |listVotes|
        invariant j <= |start| && i == |Filter(start[..j], drop)|
        invariant Valid() && listVotes == Swept(start, j, drop) && |listVotes| - i == |start| - j
        decreases |start| - j
      {
        var v := listVotes[i];
        SweepStep(start, j, drop);
        if drop(v) {
          EraseOne(listVotes, mapVoteIndex, i);
          nMemoryVotes := nMemoryVotes - 1;
          mapVoteIndex := mapVoteIndex - {v.GetHash()};
          listVotes := listVotes[..i] + listVotes[i + 1..];
        } else {
          i := i + 1;
        }
        j := j + 1;
      }
    }

    /** From any list, as it comes from disk: keeps the first vote of every hash and restores index and counter. */
    method RebuildIndex()
      modifies this
      ensures Valid() && listVotes == Firsts(old(listVotes))
      ensures KeepsHashes(old(listVotes), listVotes, mapVoteIndex)
    {
      hide IndexOk, Firsts, HasHash, KeepsHashes;
      ghost var start := listVotes;
      ghost var j := 0;
      ghost var done: seq<Vote> := [];
      mapVoteIndex := map[];
      nMemoryVotes := 0;
      var i := 0;
      FirstsNil();
      assert start[..0] == [] && start[0..] == start;
      while i < |listVotes|
        invariant j <= |start| && done == Firsts(start[..j]) && i == nMemoryVotes == |done|
        invariant listVotes == done + start[j..] && IndexOk(done, mapVoteIndex)
        decreases |start| - j
      {
        var vote := listVotes[i];
        FirstsStep(start, j);
        AppendIndex(done, mapVoteIndex, vote);
        if vote.GetHash() !in mapVoteIndex {
          mapVoteIndex := mapVoteIndex[vote.GetHash() := vote];
          nMemoryVotes := nMemoryVotes + 1;
          i := i + 1;
          done := done + [vote];
        } else {
          listVotes := listVotes[..i] + listVotes[i + 1..];
        }
        j := j + 1;
      }
      assert start[..j] == start && listVotes == done;
      Rebuilt(start, listVotes, mapVoteIndex);
    }

    method RemoveVotesFromMasternode(mn: nat)
      requires Valid()
      modifies this
      ensures Valid()
      ensures forall v :: v in listVotes <==> v in old(listVotes) && v.mn != mn
    {
      var drop := (v: Vote) => v.mn == mn;
      RemoveIf(drop);
      forall v
        ensures v in listVotes <==> v in old(listVotes) && v.mn != mn
      {
        FilterMembers(old(listVotes), drop, v);
      }
    }

    method RemoveOldVotes(vote: Vote)
      requires Valid()
      modifies this
      ensures Valid()
      ensures forall v :: v in listVotes <==> v in old(listVotes) && !Supersedes(vote, v)
    {
      var drop := (v: Vote) => Supersedes(vote, v);
      RemoveIf(drop);
      forall v
        ensures v in listVotes <==> v in old(listVotes) && !Supersedes(vote, v)
      {
        FilterMembers(old(listVotes), drop, v);
      }
    }

    /** A vote that is not known goes to the front and drops the older ones it supersedes. */
    method AddVote(vote: Vote)
      requires Valid()
      modifies this
      ensures Valid()
      ensures old(HasVote(vote.GetHash())) ==> unchanged(this)
      ensures !old(HasVote(vote.GetHash())) ==>
                forall v :: v in listVotes <==> v == vote || (v in old(listVotes) && !Supersedes(vote, v))
      ensures !old(HasVote(vote.GetHash())) ==>
                forall h :: HasVote(h) <==> h == vote.GetHash() || (old(HasVote(h)) && !SupersedesHash(vote, h))
    {
      if HasVote(vote.GetHash()) {
        return;
      }
      PushFront(listVotes, mapVoteIndex, vote);
      listVotes := [vote] + listVotes;
      mapVoteIndex := mapVoteIndex[vote.GetHash() := vote];
      nMemoryVotes := nMemoryVotes + 1;
      label pushed:
      RemoveOldVotes(vote);
      forall h
        ensures HasVote(h) <==> old@pushed(HasVote(h)) && !SupersedesHash(vote, h)
      {
        if HasVote(h) {
          assert mapVoteIndex[h] in listVotes;
        }
        if old@pushed(HasVote(h)) && !SupersedesHash(vote, h) {
          assert old@pushed(mapVoteIndex)[h] in listVotes;
        }
      }
    }
  }
}

module GovernanceRecords {
  import opened Votes

  const VOTE_SIGNAL_NONE := 0
  const MAX_SUPPORTED_VOTE_SIGNAL := 4
  const VOTE_OUTCOME_NONE := 0

  predicate Supported(signal: int) {
    signal != VOTE_SIGNAL_NONE && signal <= MAX_SUPPORTED_VOTE_SIGNAL
  }

  // ----- The order that picks the winning vote -----

  /** (timestamp, outcome), lexicographically. */
  predicate Below(t: int, o: int, t': int, o': int) {
    t < t' || (t == t' && o < o')
  }

  /** What a masternode's record on a signal says: nothing yet, which counts as (0, NONE), or a vote. */
  datatype Mark = Unset | Set(time: int, outcome: int, choice: string) {
    function Time(): int { if Unset? then 0 else time }
    function Outcome(): int { if Unset? then VOTE_OUTCOME_NONE else outcome }
  }

  /** A delivered vote replaces the record if it is higher; on the very first record an equal one is enough. */
  function Step(m: Mark, v: Vote): Mark {
    if Below(m.Time(), m.Outcome(), v.time, v.outcome) || (m.Unset? && v.time == 0 && v.outcome == 0)
    then Set(v.time, v.outcome, v.choice)
    else m
  }

  /** The same masternode on the same signal. */
  predicate SameSeat(v: Vote, w: Vote) {
    v.mn == w.mn && v.signal == w.signal
  }

  predicate About(v: Vote, mn: nat, signal: int) {
    v.mn == mn && v.signal == signal && Supported(signal)
  }

  /** The record after a sequence of deliveries. */
  ghost function Fold(votes: seq<Vote>, mn: nat, signal: int): Mark {
    if votes == [] then Unset
    else
      var n := |votes| - 1;
      var m := Fold(votes[..n], mn, signal);
      if About(votes[n], mn, signal) then Step(m, votes[n]) else m
  }

  /** (t, o) is the highest of the initial (0, NONE) and the votes about this masternode and signal. */
  ghost predicate IsHighest(votes: seq<Vote>, mn: nat, signal: int, t: int, o: int) {
    && ((t == 0 && o == VOTE_OUTCOME_NONE) || exists v :: v in votes && About(v, mn, signal) && v.time == t && v.outcome == o)
    && !Below(t, o, 0, VOTE_OUTCOME_NONE)
    && forall v | v in votes && About(v, mn, signal) :: !Below(t, o, v.time, v.outcome)
  }

  lemma {:induction false} FoldIsHighest(votes: seq<Vote>, mn: nat, signal: int)
    ensures var m := Fold(votes, mn, signal); IsHighest(votes, mn, signal, m.Time(), m.Outcome())
  {
    if votes != [] {
      var n := |votes| - 1;
      FoldIsHighest(votes[..n], mn, signal);
      assert votes == votes[..n] + [votes[n]];
      var m, m' := Fold(votes[..n], mn, signal), Fold(votes, mn, signal);
      if m' != m {
        assert votes[n] in votes && About(votes[n], mn, signal);
      } else if !(m.Time() == 0 && m.Outcome() == 0) {
        var v :| v in votes[..n] && About(v, mn, signal) && v.time == m.Time() && v.outcome == m.Outcome();
        assert v in votes;
      }
    }
  }

  lemma HighestUnique(votes: seq<Vote>, votes': seq<Vote>, mn: nat, signal: int, t: int, o: int, t': int, o': int)
    requires forall v :: v in votes <==> v in votes'
    requires IsHighest(votes, mn, signal, t, o) && IsHighest(votes', mn, signal, t', o')
    ensures t == t' && o == o'
  {
  }

  /** Records converge: any order and any repetition of the same votes ends with the same timestamp and outcome. */
  lemma RecordsConverge(votes: seq<Vote>, votes': seq<Vote>, mn: nat, signal: int)
    requires forall v :: v in votes <==> v in votes'
    ensures var m, m' := Fold(votes, mn, signal), Fold(votes', mn, signal);
            m.Time() == m'.Time() && m.Outcome() == m'.Outcome()
  {
    var m, m' := Fold(votes, mn, signal), Fold(votes', mn, signal);
    FoldIsHighest(votes, mn, signal);
    FoldIsHighest(votes', mn, signal);
    HighestUnique(votes, votes', mn, signal, m.Time(), m.Outcome(), m'.Time(), m'.Outcome());
  }

  // ----- The multiple-choice text, which the hash leaves out -----

  /** Every vote that reaches the highest timestamp and outcome carries the same text. */
  ghost predicate Uniform(votes: seq<Vote>, mn: nat, signal: int) {
    forall v, w | v in votes && w in votes && About(v, mn, signal) && About(w, mn, signal)
                  && v.time == w.time && v.outcome == w.outcome && IsHighest(votes, mn, signal, v.time, v.outcome) ::
      v.choice == w.choice
  }

  ghost predicate SameVotes(votes: seq<Vote>, votes': seq<Vote>) {
    forall v :: v in votes <==> v in votes'
  }

  /** A record that is set comes from one of the delivered votes, and it is unset only below every vote. */
  lemma {:induction false} FoldSource(votes: seq<Vote>, mn: nat, signal: int)
    ensures var m := Fold(votes, mn, signal);
            if m.Set? then exists v :: v in votes && About(v, mn, signal) && m == Set(v.time, v.outcome, v.choice)
            else forall v | v in votes && About(v, mn, signal) :: Below(v.time, v.outcome, 0, VOTE_OUTCOME_NONE)
  {
    if votes != [] {
      var n := |votes| - 1;
      FoldSource(votes[..n], mn, signal);
      assert votes == votes[..n] + [votes[n]];
      var m, m' := Fold(votes[..n], mn, signal), Fold(votes, mn, signal);
      if m'.Set? {
        if m' == m {
          var v :| v in votes[..n] && About(v, mn, signal) && m == Set(v.time, v.outcome, v.choice);
          assert v in votes;
        } else {
          assert votes[n] in votes;
        }
      }
    }
  }

  /** Of several votes that tie for the highest place, the one delivered first stays. */
  lemma {:induction false} FirstHighestStays(v: Vote, votes: seq<Vote>, mn: nat, signal: int)
    requires About(v, mn, signal) && !Below(v.time, v.outcome, 0, VOTE_OUTCOME_NONE)
    requires forall w | w in votes && About(w, mn, signal) :: !Below(v.time, v.outcome, w.time, w.outcome)
    ensures Fold([v] + votes, mn, signal) == Set(v.time, v.outcome, v.choice)
    decreases |votes|
  {
    var all := [v] + votes;
    if votes == [] {
      assert all[..0] == [];
    } else {
      var n := |votes| - 1;
      FirstHighestStays(v, votes[..n], mn, signal);
      assert all[..n + 1] == [v] + votes[..n];
      assert votes[n] in votes;
    }
  }

  /** The text converges for every order and repetition exactly when the highest votes agree on it. */
  lemma ChoiceConvergesIffUniform(votes: seq<Vote>, mn: nat, signal: int)
    ensures (forall a, b | SameVotes(a, votes) && SameVotes(b, votes) :: Fold(a, mn, signal) == Fold(b, mn, signal))
            <==> Uniform(votes, mn, signal)
  {
    if Uniform(votes, mn, signal) {
      forall a, b | SameVotes(a, votes) && SameVotes(b, votes)
        ensures Fold(a, mn, signal) == Fold(b, mn, signal)
      {
        UniformAgree(votes, a, b, mn, signal);
      }
    } else {
      var v, w :| v in votes && w in votes && About(v, mn, signal) && About(w, mn, signal)
                  && v.time == w.time && v.outcome == w.outcome && IsHighest(votes, mn, signal, v.time, v.outcome)
                  && v.choice != w.choice;
      FirstHighestStays(v, votes, mn, signal);
      FirstHighestStays(w, votes, mn, signal);
      assert SameVotes([v] + votes, votes) && SameVotes([w] + votes, votes);
      assert Fold([v] + votes, mn, signal) != Fold([w] + votes, mn, signal);
    }
  }

  lemma UniformAgree(votes: seq<Vote>, a: seq<Vote>, b: seq<Vote>, mn: nat, signal: int)
    requires Uniform(votes, mn, signal) && SameVotes(a, votes) && SameVotes(b, votes)
    ensures Fold(a, mn, signal) == Fold(b, mn, signal)
  {
    var m, m' := Fold(a, mn, signal), Fold(b, mn, signal);
    RecordsConverge(a, b, mn, signal);
    FoldIsHighest(votes, mn, signal);
    RecordsConverge(a, votes, mn, signal);
    FoldSource(a, mn, signal);
    FoldSource(b, mn, signal);
  }

  // ----- The file, which keeps the votes that were highest when they came -----

  datatype Rank = Rank(time: int, outcome: int)

  /** A delivered vote enters the file if it is not there and not below the record, and drops what is older. */
  ghost function Filed(file: set<Rank>, m: Mark, v: Vote): set<Rank> {
    var r := Rank(v.time, v.outcome);
    if r in file || Below(v.time, v.outcome, m.Time(), m.Outcome()) then file
    else (set p | p in file && p.time >= v.time) + {r}
  }

  /** What the file holds of a masternode on a signal after a sequence of deliveries. */
  ghost function FileFold(votes: seq<Vote>, mn: nat, signal: int): set<Rank> {
    if votes == [] then {}
    else
      var n := |votes| - 1;
      var file := FileFold(votes[..n], mn, signal);
      if About(votes[n], mn, signal) then Filed(file, Fold(votes[..n], mn, signal), votes[n]) else file
  }

  /** The file agrees with the record: empty while it is unset, otherwise the record's own vote and lower ones of
      the same time. */
  ghost predicate FileFits(file: set<Rank>, m: Mark) {
    if m.Unset? then file == {}
    else
      && Rank(m.time, m.outcome) in file
      && forall p <- file :: p.time == m.time && p.outcome <= m.outcome
  }

  lemma FiledFits(file: set<Rank>, m: Mark, v: Vote)
    requires FileFits(file, m) && !Below(m.Time(), m.Outcome(), 0, VOTE_OUTCOME_NONE)
    ensures FileFits(Filed(file, m, v), Step(m, v))
  {
  }

  lemma {:induction false} FileShape(votes: seq<Vote>, mn: nat, signal: int)
    ensures FileFits(FileFold(votes, mn, signal), Fold(votes, mn, signal))
    ensures forall p <- FileFold(votes, mn, signal) ::
              exists v :: v in votes && About(v, mn, signal) && v.time == p.time && v.outcome == p.outcome
  {
    if votes != [] {
      var n := |votes| - 1;
      var front := votes[..n];
      FileShape(front, mn, signal);
      FoldIsHighest(front, mn, signal);
      FiledFits(FileFold(front, mn, signal), Fold(front, mn, signal), votes[n]);
      assert votes == front + [votes[n]];
      forall p <- FileFold(votes, mn, signal)
        ensures exists v :: v in votes && About(v, mn, signal) && v.time == p.time && v.outcome == p.outcome
      {
        if p in FileFold(front, mn, signal) {
          var v :| v in front && About(v, mn, signal) && v.time == p.time && v.outcome == p.outcome;
          assert v in votes;
        } else {
          assert votes[n] in votes;
        }
      }
    }
  }

  /** A vote on this signal, not below (0, NONE), that no other such vote is later than. */
  ghost predicate Latest(votes: seq<Vote>, mn: nat, signal: int, v: Vote) {
    && v in votes && About(v, mn, signal) && !Below(v.time, v.outcome, 0, VOTE_OUTCOME_NONE)
    && forall w | w in votes && About(w, mn, signal) && !Below(w.time, w.outcome, 0, VOTE_OUTCOME_NONE) :: w.time <= v.time
  }

  /** The latest votes of the masternode on the signal agree on the outcome. */
  ghost predicate LatestAgree(votes: seq<Vote>, mn: nat, signal: int) {
    forall v, w | Latest(votes, mn, signal, v) && Latest(votes, mn, signal, w) :: v.outcome == w.outcome
  }

  /** Where the latest votes agree the file holds the record's vote alone. */
  lemma AgreedFile(votes: seq<Vote>, a: seq<Vote>, mn: nat, signal: int)
    requires LatestAgree(votes, mn, signal) && SameVotes(a, votes)
    ensures var m := Fold(a, mn, signal);
            FileFold(a, mn, signal) == if m.Unset? then {} else {Rank(m.time, m.outcome)}
  {
    hide FileFold, Fold;
    var m, file := Fold(a, mn, signal), FileFold(a, mn, signal);
    FileShape(a, mn, signal);
    FoldIsHighest(a, mn, signal);
    FoldSource(a, mn, signal);
    if m.Set? {
      var h :| h in a && About(h, mn, signal) && m == Set(h.time, h.outcome, h.choice);
      assert Latest(votes, mn, signal, h);
      forall p <- file
        ensures p == Rank(m.time, m.outcome)
      {
        var v :| v in a && About(v, mn, signal) && v.time == p.time && v.outcome == p.outcome;
        if !Below(v.time, v.outcome, 0, VOTE_OUTCOME_NONE) {
          assert Latest(votes, mn, signal, v);
        } else {
          FileAboveStart(a, mn, signal, p);
        }
      }
    }
  }

  lemma {:induction false} FileAboveStart(votes: seq<Vote>, mn: nat, signal: int, p: Rank)
    requires p in FileFold(votes, mn, signal)
    ensures !Below(p.time, p.outcome, 0, VOTE_OUTCOME_NONE)
  {
    var n := |votes| - 1;
    if p in FileFold(votes[..n], mn, signal) {
      FileAboveStart(votes[..n], mn, signal, p);
    } else {
      FoldIsHighest(votes[..n], mn, signal);
    }
  }

  /** Once the highest vote has come, nothing more enters the file. */
  lemma {:induction false} FileStays(first: seq<Vote>, votes: seq<Vote>, mn: nat, signal: int)
    requires Fold(first, mn, signal).Set?
    requires var m := Fold(first, mn, signal);
             forall w | w in votes && About(w, mn, signal) :: !Below(m.time, m.outcome, w.time, w.outcome)
    ensures Fold(first + votes, mn, signal) == Fold(first, mn, signal)
    ensures FileFold(first + votes, mn, signal) == FileFold(first, mn, signal)
    decreases |votes|
  {
    var all := first + votes;
    if votes == [] {
      assert all == first;
    } else {
      var n := |votes| - 1;
      FileStays(first, votes[..n], mn, signal);
      assert all[..|all| - 1] == first + votes[..n] && votes[n] in votes;
      FileShape(first, mn, signal);
    }
  }

  /** The file converges for every order and repetition exactly when the latest votes agree on the outcome. */
  lemma FileConvergesIffAgreed(votes: seq<Vote>, mn: nat, signal: int)
    ensures (forall a, b | SameVotes(a, votes) && SameVotes(b, votes) :: FileFold(a, mn, signal) == FileFold(b, mn, signal))
            <==> LatestAgree(votes, mn, signal)
  {
    if LatestAgree(votes, mn, signal) {
      forall a, b | SameVotes(a, votes) && SameVotes(b, votes)
        ensures FileFold(a, mn, signal) == FileFold(b, mn, signal)
      {
        AgreedFile(votes, a, mn, signal);
        AgreedFile(votes, b, mn, signal);
        RecordsConverge(a, b, mn, signal);
        FoldSource(a, mn, signal);
        FoldSource(b, mn, signal);
        FoldIsHighest(a, mn, signal);
        FoldIsHighest(b, mn, signal);
      }
    } else {
      var v, w :| Latest(votes, mn, signal, v) && Latest(votes, mn, signal, w) && v.outcome != w.outcome;
      FoldIsHighest(votes, mn, signal);
      FoldSource(votes, mn, signal);
      var m := Fold(votes, mn, signal);
      var h :| h in votes && About(h, mn, signal) && m == Set(h.time, h.outcome, h.choice);
      var lower := if v.outcome < h.outcome then v else w;
      assert lower.time == h.time && lower.outcome < h.outcome;
      TwoOrders(votes, lower, h, mn, signal);
    }
  }

  /** The highest vote first leaves only itself; a lower one of the same time before it stays as well. */
  lemma TwoOrders(votes: seq<Vote>, lower: Vote, h: Vote, mn: nat, signal: int)
    requires lower in votes && h in votes && About(lower, mn, signal) && About(h, mn, signal)
    requires lower.time == h.time && lower.outcome < h.outcome && !Below(lower.time, lower.outcome, 0, VOTE_OUTCOME_NONE)
    requires forall w | w in votes && About(w, mn, signal) :: !Below(h.time, h.outcome, w.time, w.outcome)
    ensures SameVotes([h] + votes, votes) && SameVotes([lower, h] + votes, votes)
    ensures FileFold([h] + votes, mn, signal) != FileFold([lower, h] + votes, mn, signal)
  {
    assert [h][..0] == [] && [lower][..0] == [] && [lower, h][..1] == [lower];
    assert Fold([h], mn, signal) == Set(h.time, h.outcome, h.choice);
    assert FileFold([h], mn, signal) == {Rank(h.time, h.outcome)};
    assert Fold([lower], mn, signal) == Set(lower.time, lower.outcome, lower.choice);
    assert FileFold([lower], mn, signal) == {Rank(lower.time, lower.outcome)};
    assert Fold([lower, h], mn, signal) == Set(h.time, h.outcome, h.choice);
    assert Rank(lower.time, lower.outcome) in FileFold([lower, h], mn, signal);
    FileStays([h], votes, mn, signal);
    FileStays([lower, h], votes, mn, signal);
  }

  // ----- The governance object -----

  /** vote_instance_t */
  datatype Instance = Instance(outcome: int, time: int, creation: int, choice: string)

  const NO_VOTE := Instance(VOTE_OUTCOME_NONE, 0, 0, "")

  type Records = map<nat, map<int, Instance>>

  function Rec(current: Records, mn: nat, signal: int): Instance {
    if mn in current && signal in current[mn] then current[mn][signal] else NO_VOTE
  }

  /** The masternodes whose record on a signal has an outcome. */
  ghost function Voters(current: Records, signal: int, outcome: int): set<nat> {
    set mn | mn in current && signal in current[mn] && current[mn][signal].outcome == outcome
  }

  ghost function OwnHash(obj: nat, current: Records, mn: nat, signal: int): VoteHash {
    var r := Rec(current, mn, signal);
    VoteHash(mn, obj, signal, r.outcome, r.creation)
  }

  /** A record counts as set when the vote it came from is in the file. */
  ghost function MarkIn(obj: nat, current: Records, known: set<VoteHash>, mn: nat, signal: int): Mark {
    var r := Rec(current, mn, signal);
    if OwnHash(obj, current, mn, signal) in known then Set(r.creation, r.outcome, r.choice) else Unset
  }

  ghost predicate HashOk(obj: nat, current: Records, known: set<VoteHash>, h: VoteHash) {
    var r := Rec(current, h.mn, h.signal);
    && h.parent == obj && Supported(h.signal) && !Below(r.creation, r.outcome, h.time, h.outcome)
    && OwnHash(obj, current, h.mn, h.signal) in known
  }

  /** A file vote is for this object and not above its record, which is in the file too; a record that is not
      in the file is still (0, NONE). */
  ghost predicate RecordsOk(obj: nat, current: Records, known: set<VoteHash>) {
    && (forall h | h in known :: HashOk(obj, current, known, h))
    && (forall mn: nat, signal: int :: OwnHash(obj, current, mn, signal) in known ||
          (Rec(current, mn, signal).creation == 0 && Rec(current, mn, signal).outcome == VOTE_OUTCOME_NONE))
  }

  /** What the file holds of a masternode on a signal. */
  ghost function FileIn(obj: nat, known: set<VoteHash>, mn: nat, signal: int): set<Rank> {
    set h | h in known && h.parent == obj && h.mn == mn && h.signal == signal :: Rank(h.time, h.outcome)
  }

  lemma FileMember(obj: nat, known: set<VoteHash>, mn: nat, signal: int, p: Rank)
    ensures p in FileIn(obj, known, mn, signal) <==> VoteHash(mn, obj, signal, p.outcome, p.time) in known
  {
    if VoteHash(mn, obj, signal, p.outcome, p.time) in known {
      assert Rank(p.time, p.outcome) in FileIn(obj, known, mn, signal);
    }
  }

  /** A vote taken into the file, seen by masternode and signal. */
  lemma FileTakes(obj: nat, known: set<VoteHash>, known': set<VoteHash>, vote: Vote, mn: nat, signal: int)
    requires vote.parent == obj
    requires forall h :: h in known' <==> h == vote.GetHash() || (h in known && !SupersedesHash(vote, h))
    ensures var file := FileIn(obj, known, mn, signal);
            FileIn(obj, known', mn, signal) ==
            if vote.mn == mn && vote.signal == signal
            then (set p | p in file && p.time >= vote.time) + {Rank(vote.time, vote.outcome)} else file
  {
    hide FileIn;
    var file := FileIn(obj, known, mn, signal);
    forall p: Rank
      ensures p in FileIn(obj, known', mn, signal) <==>
              (p in file && (vote.mn == mn && vote.signal == signal ==> p.time >= vote.time))
              || (vote.mn == mn && vote.signal == signal && p == Rank(vote.time, vote.outcome))
    {
      FileMember(obj, known, mn, signal, p);
      FileMember(obj, known', mn, signal, p);
    }
  }

  /** The record's time and outcome are those of its mark. */
  lemma MarkIsRecord(obj: nat, current: Records, known: set<VoteHash>, mn: nat, signal: int)
    requires RecordsOk(obj, current, known)
    ensures var m, r := MarkIn(obj, current, known, mn, signal), Rec(current, mn, signal);
            m.Time() == r.creation && m.Outcome() == r.outcome
  {
    assert OwnHash(obj, current, mn, signal) in known ||
           (Rec(current, mn, signal).creation == 0 && Rec(current, mn, signal).outcome == VOTE_OUTCOME_NONE);
  }

  lemma FiledIsSet(obj: nat, current: Records, known: set<VoteHash>, h: VoteHash)
    requires RecordsOk(obj, current, known) && h in known
    ensures MarkIn(obj, current, known, h.mn, h.signal).Set?
  {
    assert HashOk(obj, current, known, h);
  }

  /** While no record is set there is nothing in the file. */
  lemma NothingFiled(obj: nat, current: Records, known: set<VoteHash>)
    requires RecordsOk(obj, current, known)
    requires forall mn: nat, signal: int :: MarkIn(obj, current, known, mn, signal) == Unset
    ensures forall mn: nat, signal: int :: FileIn(obj, known, mn, signal) == {}
  {
    hide RecordsOk, MarkIn;
    forall h | h in known
      ensures MarkIn(obj, current, known, h.mn, h.signal).Set?
    {
      FiledIsSet(obj, current, known, h);
    }
  }

  function PutRecord(current: Records, mn: nat, signal: int, rec: Instance): Records
    requires mn in current
  {
    current[mn := current[mn][signal := rec]]
  }

  lemma PutRecordRec(current: Records, mn: nat, signal: int, rec: Instance, mn': nat, signal': int)
    requires mn in current
    ensures Rec(PutRecord(current, mn, signal, rec), mn', signal') ==
            if mn' == mn && signal' == signal then rec else Rec(current, mn', signal')
  {
  }

  /** Taking a vote that is not below the record, into record and file. */
  lemma TakeKeeps(obj: nat, current: Records, known: set<VoteHash>, vote: Vote, rec: Instance, known': set<VoteHash>)
    requires RecordsOk(obj, current, known) && vote.mn in current
    requires vote.parent == obj && Supported(vote.signal)
    requires var r := Rec(current, vote.mn, vote.signal); !Below(vote.time, vote.outcome, r.creation, r.outcome)
    requires rec.outcome == vote.outcome && rec.creation == vote.time && rec.choice == vote.choice
    requires forall h :: h in known' <==> h == vote.GetHash() || (h in known && !SupersedesHash(vote, h))
    ensures var current' := PutRecord(current, vote.mn, vote.signal, rec);
            && RecordsOk(obj, current', known')
            && MarkIn(obj, current', known', vote.mn, vote.signal) == Set(vote.time, vote.outcome, vote.choice)
            && forall mn: nat, signal: int | mn != vote.mn || signal != vote.signal ::
                 MarkIn(obj, current', known', mn, signal) == MarkIn(obj, current, known, mn, signal)
  {
    var current' := PutRecord(current, vote.mn, vote.signal, rec);
    forall mn: nat, signal: int
      ensures Rec(current', mn, signal) ==
              if mn == vote.mn && signal == vote.signal then rec else Rec(current, mn, signal)
    {
      PutRecordRec(current, vote.mn, vote.signal, rec, mn, signal);
    }
    hide PutRecord, Rec;
    forall h | h in known'
      ensures HashOk(obj, current', known', h)
    {
      if h != vote.GetHash() {
        assert HashOk(obj, current, known, h);
      }
    }
  }

  /** A vote is taken exactly when the record steps up to it. */
  lemma StepWhenTaken(obj: nat, current: Records, known: set<VoteHash>, vote: Vote)
    requires RecordsOk(obj, current, known) && vote.parent == obj && Supported(vote.signal)
    ensures var r := Rec(current, vote.mn, vote.signal);
            var m := MarkIn(obj, current, known, vote.mn, vote.signal);
            Step(m, vote) == if vote.GetHash() !in known && !Below(vote.time, vote.outcome, r.creation, r.outcome)
                             then Set(vote.time, vote.outcome, vote.choice) else m
  {
    assert vote.GetHash() in known ==> HashOk(obj, current, known, vote.GetHash());
    assert OwnHash(obj, current, vote.mn, vote.signal) in known ||
           (Rec(current, vote.mn, vote.signal).creation == 0 && Rec(current, vote.mn, vote.signal).outcome == VOTE_OUTCOME_NONE);
  }

  class GovernanceObject {
    const objectHash: nat
    const fileVotes: VoteFile

    var mapCurrentMNVotes: Records
    var fDirtyCache: bool

    /** The record as the specification sees it. */
    ghost function MarkOf(mn: nat, signal: int): Mark
      reads this, fileVotes
    {
      MarkIn(objectHash, mapCurrentMNVotes, fileVotes.mapVoteIndex.Keys, mn, signal)
    }

    ghost function FileOf(mn: nat, signal: int): set<Rank>
      reads this, fileVotes
    {
      FileIn(objectHash, fileVotes.mapVoteIndex.Keys, mn, signal)
    }

    ghost predicate Valid()
      reads this, fileVotes
    {
      fileVotes.Valid() && RecordsOk(objectHash, mapCurrentMNVotes, fileVotes.mapVoteIndex.Keys)
    }

    constructor (objectHash: nat)
      ensures Valid() && this.objectHash == objectHash && fresh(fileVotes)
      ensures forall mn, signal :: MarkOf(mn, signal) == Unset
      ensures mapCurrentMNVotes == map[] && fDirtyCache
      ensures forall mn, signal :: Rec(mapCurrentMNVotes, mn, signal) == Instance(0, 0, 0, "")
    {
      this.objectHash := objectHash;
      fileVotes := new VoteFile();
      mapCurrentMNVotes, fDirtyCache := map[], true;
    }

    /** What decides whether a vote is taken: not known, a known masternode, a supported signal, not below the
        record, no rate limit hit, and valid. The record and the file change only if it is. */
    method ProcessVote(vote: Vote, knownMasternode: bool, rateChecks: bool, now: int, minDelta: int,
                       valid: bool, metaOk: bool) returns (accepted: bool)
      requires Valid() && vote.parent == objectHash
      modifies this, fileVotes
      ensures Valid()
      ensures var r := old(Rec(mapCurrentMNVotes, vote.mn, vote.signal));
              accepted <==>
                && !old(fileVotes.HasVote(vote.GetHash())) && knownMasternode && vote.signal != 0 && vote.signal <= 4
                && !Below(vote.time, vote.outcome, r.creation, r.outcome)
                && (rateChecks ==> now - r.time >= minDelta) && valid && metaOk
      ensures !accepted ==> unchanged(fileVotes) && fDirtyCache == old(fDirtyCache)
      ensures accepted ==> fDirtyCache
      ensures forall mn: nat, signal: int :: Rec(mapCurrentMNVotes, mn, signal) ==
                if accepted && mn == vote.mn && signal == vote.signal
                then Instance(vote.outcome, if rateChecks then now else old(Rec(mapCurrentMNVotes, mn, signal).time), vote.time, vote.choice)
                else old(Rec(mapCurrentMNVotes, mn, signal))
      ensures accepted ==> forall h :: fileVotes.HasVote(h) <==>
                h == vote.GetHash() || (old(fileVotes.HasVote(h)) && !SupersedesHash(vote, h))
      ensures accepted ==> MarkOf(vote.mn, vote.signal) == Set(vote.time, vote.outcome, vote.choice)
      ensures forall mn: nat, signal: int | !accepted || mn != vote.mn || signal != vote.signal ::
                MarkOf(mn, signal) == old(MarkOf(mn, signal))
    {
      hide RecordsOk, MarkIn, IndexOk;
      accepted := false;
      if fileVotes.HasVote(vote.GetHash()) || !knownMasternode {
        return;
      }
      ghost var known := fileVotes.mapVoteIndex.Keys;
      if vote.mn !in mapCurrentMNVotes {
        mapCurrentMNVotes := mapCurrentMNVotes[vote.mn := map[]];
      }
      SameRecordsKeep(objectHash, old(mapCurrentMNVotes), mapCurrentMNVotes, known);
      if vote.signal == VOTE_SIGNAL_NONE || vote.signal > MAX_SUPPORTED_VOTE_SIGNAL {
        return;
      }
      if vote.signal !in mapCurrentMNVotes[vote.mn] {
        mapCurrentMNVotes := mapCurrentMNVotes[vote.mn := mapCurrentMNVotes[vote.mn][vote.signal := NO_VOTE]];
      }
      SameRecordsKeep(objectHash, old(mapCurrentMNVotes), mapCurrentMNVotes, known);
      var r := mapCurrentMNVotes[vote.mn][vote.signal];
      if vote.time < r.creation {
        return;
      } else if vote.time == r.creation {
        if vote.outcome < r.outcome {
          return;
        }
      }
      var voteTime := r.time;
      if rateChecks {
        if now - r.time < minDelta {
          return;
        }
        voteTime := now;
      }
      if !valid || !metaOk {
        return;
      }
      Take(vote, voteTime);
      accepted := true;
    }

    /** The accepting end of ProcessVote: the record is overwritten and the vote goes to the file. */
    method Take(vote: Vote, voteTime: int)
      requires Valid() && vote.parent == objectHash && Supported(vote.signal)
      requires vote.mn in mapCurrentMNVotes && !fileVotes.HasVote(vote.GetHash())
      requires var r := Rec(mapCurrentMNVotes, vote.mn, vote.signal); !Below(vote.time, vote.outcome, r.creation, r.outcome)
      modifies this, fileVotes
      ensures Valid() && fDirtyCache
      ensures forall mn: nat, signal: int :: Rec(mapCurrentMNVotes, mn, signal) ==
                if mn == vote.mn && signal == vote.signal then Instance(vote.outcome, voteTime, vote.time, vote.choice)
                else old(Rec(mapCurrentMNVotes, mn, signal))
      ensures forall h :: fileVotes.HasVote(h) <==> h == vote.GetHash() || (old(fileVotes.HasVote(h)) && !SupersedesHash(vote, h))
      ensures MarkOf(vote.mn, vote.signal) == Set(vote.time, vote.outcome, vote.choice)
      ensures forall mn: nat, signal: int | mn != vote.mn || signal != vote.signal ::
                MarkOf(mn, signal) == old(MarkOf(mn, signal))
    {
      hide RecordsOk, MarkIn, IndexOk;
      var rec := Instance(vote.outcome, voteTime, vote.time, vote.choice);
      ghost var current, known := mapCurrentMNVotes, fileVotes.mapVoteIndex.Keys;
      mapCurrentMNVotes := PutRecord(mapCurrentMNVotes, vote.mn, vote.signal, rec);
      fileVotes.AddVote(vote);
      forall h
        ensures h in fileVotes.mapVoteIndex.Keys <==> h == vote.GetHash() || (h in known && !SupersedesHash(vote, h))
      {
        assert fileVotes.HasVote(h) <==> h == vote.GetHash() || (old(fileVotes.HasVote(h)) && !SupersedesHash(vote, h));
      }
      TakeKeeps(objectHash, current, known, vote, rec, fileVotes.mapVoteIndex.Keys);
      forall mn: nat, signal: int
        ensures Rec(mapCurrentMNVotes, mn, signal) ==
                if mn == vote.mn && signal == vote.signal then rec else Rec(current, mn, signal)
      {
        PutRecordRec(current, vote.mn, vote.signal, rec, mn, signal);
      }
      fDirtyCache := true;
    }

    /** The rate limit over any run of votes with rate checks on: two accepted votes of one masternode on one signal
        are at least minDelta apart on the clock. */
    method ProcessRun(votes: seq<Vote>, clocks: seq<int>, minDelta: nat, known: Vote -> bool, valid: Vote -> bool)
      returns (accepted: seq<bool>)
      requires Valid() && |clocks| == |votes| && forall v | v in votes :: v.parent == objectHash
      modifies this, fileVotes
      ensures Valid() && |accepted| == |votes|
      ensures forall i, j | 0 <= i < j < |votes| && accepted[i] && accepted[j] && SameSeat(votes[i], votes[j]) ::
                clocks[j] - clocks[i] >= minDelta
    {
      hide RecordsOk, MarkIn, IndexOk, Rec;
      accepted := [];
      for n := 0 to |votes|
        invariant Valid() && |accepted| == n
        invariant forall i | 0 <= i < n && accepted[i] :: Rec(mapCurrentMNVotes, votes[i].mn, votes[i].signal).time >= clocks[i]
        invariant forall i, j | 0 <= i < j < n && accepted[i] && accepted[j] && SameSeat(votes[i], votes[j]) ::
                    clocks[j] - clocks[i] >= minDelta
      {
        var a := ProcessVote(votes[n], known(votes[n]), true, clocks[n], minDelta, valid(votes[n]), true);
        accepted := accepted + [a];
      }
    }

    /** With rate checks off, a known masternode and a valid vote, one delivery is one step of the specification. */
    method Deliver(vote: Vote)
      requires Valid() && vote.parent == objectHash
      modifies this, fileVotes
      ensures Valid()
      ensures forall mn, signal :: MarkOf(mn, signal) ==
                if About(vote, mn, signal) then Step(old(MarkOf(mn, signal)), vote) else old(MarkOf(mn, signal))
      ensures forall mn, signal :: FileOf(mn, signal) ==
                if About(vote, mn, signal) then Filed(old(FileOf(mn, signal)), old(MarkOf(mn, signal)), vote)
                else old(FileOf(mn, signal))
    {
      ghost var known, current := fileVotes.mapVoteIndex.Keys, mapCurrentMNVotes;
      assert vote.GetHash() in known ==> HashOk(objectHash, mapCurrentMNVotes, known, vote.GetHash());
      MarkIsRecord(objectHash, current, known, vote.mn, vote.signal);
      FileMember(objectHash, known, vote.mn, vote.signal, Rank(vote.time, vote.outcome));
      if Supported(vote.signal) {
        StepWhenTaken(objectHash, current, known, vote);
      }
      hide RecordsOk, MarkIn, FileIn, Step, IndexOk;
      var accepted := ProcessVote(vote, true, false, 0, 0, true, true);
      if accepted {
        forall h
          ensures h in fileVotes.mapVoteIndex.Keys <==> h == vote.GetHash() || (h in known && !SupersedesHash(vote, h))
        {
          assert fileVotes.HasVote(h) <==> h == vote.GetHash() || (old(fileVotes.HasVote(h)) && !SupersedesHash(vote, h));
        }
        forall mn, signal
          ensures FileOf(mn, signal) ==
                  if About(vote, mn, signal) then Filed(old(FileOf(mn, signal)), old(MarkOf(mn, signal)), vote)
                  else old(FileOf(mn, signal))
        {
          FileTakes(objectHash, known, fileVotes.mapVoteIndex.Keys, vote, mn, signal);
        }
      }
    }

    /** Any sequence of deliveries leaves the record and the file of the specification. */
    method DeliverAll(votes: seq<Vote>)
      requires Valid() && (forall mn, signal :: MarkOf(mn, signal) == Unset)
      requires forall v | v in votes :: v.parent == objectHash
      modifies this, fileVotes
      ensures Valid()
      ensures forall mn, signal :: MarkOf(mn, signal) == Fold(votes, mn, signal)
      ensures forall mn, signal :: FileOf(mn, signal) == FileFold(votes, mn, signal)
    {
      forall mn: nat, signal: int
        ensures MarkIn(objectHash, mapCurrentMNVotes, fileVotes.mapVoteIndex.Keys, mn, signal) == Unset
      {
        assert MarkOf(mn, signal) == Unset;
      }
      NothingFiled(objectHash, mapCurrentMNVotes, fileVotes.mapVoteIndex.Keys);
      for i := 0 to |votes|
        invariant Valid()
        invariant forall mn, signal :: MarkOf(mn, signal) == Fold(votes[..i], mn, signal)
        invariant forall mn, signal :: FileOf(mn, signal) == FileFold(votes[..i], mn, signal)
      {
        hide Step, Filed, RecordsOk, MarkIn, FileIn, IndexOk;
        assert votes[..i + 1][..i] == votes[..i];
        Deliver(votes[i]);
      }
      assert votes[..|votes|] == votes;
    }

    method CountMatchingVotes(signal: int, outcome: int) returns (n: nat)
      ensures n == |Voters(mapCurrentMNVotes, signal, outcome)|
    {
      hide Voters;
      n := 0;
      var todo := mapCurrentMNVotes.Keys;
      ghost var voters := Voters(mapCurrentMNVotes, signal, outcome);
      VotersKnown(mapCurrentMNVotes, signal, outcome);
      assert voters - todo == {};
      while todo != {}
        invariant todo <= mapCurrentMNVotes.Keys && n == |voters - todo|
        decreases |todo|
      {
        var mn :| mn in todo;
        VoterAt(mapCurrentMNVotes, signal, outcome, mn);
        if signal in mapCurrentMNVotes[mn] && mapCurrentMNVotes[mn][signal].outcome == outcome {
          n := n + 1;
          assert voters - (todo - {mn}) == (voters - todo) + {mn};
        } else {
          assert voters - (todo - {mn}) == voters - todo;
        }
        todo := todo - {mn};
      }
      assert voters - {} == voters;
    }
  }

  lemma VotersKnown(current: Records, signal: int, outcome: int)
    ensures Voters(current, signal, outcome) <= current.Keys
  {
  }

  lemma VoterAt(current: Records, signal: int, outcome: int, mn: nat)
    requires mn in current
    ensures mn in Voters(current, signal, outcome) <==> signal in current[mn] && current[mn][signal].outcome == outcome
  {
  }

  ghost predicate SameRecords(a: Records, b: Records) {
    forall mn: nat, signal: int :: Rec(a, mn, signal) == Rec(b, mn, signal)
  }

  /** Entering an empty record changes nothing. */
  lemma SameRecordsKeep(obj: nat, a: Records, b: Records, known: set<VoteHash>)
    requires RecordsOk(obj, a, known) && SameRecords(a, b)
    ensures RecordsOk(obj, b, known)
    ensures forall mn: nat, signal: int :: MarkIn(obj, b, known, mn, signal) == MarkIn(obj, a, known, mn, signal)
  {
    forall mn: nat, signal: int
      ensures Rec(a, mn, signal) == Rec(b, mn, signal)
    {
    }
    hide Rec;
    forall h | h in known
      ensures HashOk(obj, b, known, h)
    {
      assert HashOk(obj, a, known, h);
    }
  }

  /** Equal records give equal tallies, for every outcome but NONE. */
  lemma SameVoters(a: Records, b: Records, signal: int, outcome: int)
    requires outcome != VOTE_OUTCOME_NONE
    requires forall mn :: Rec(a, mn, signal).outcome == Rec(b, mn, signal).outcome
    ensures Voters(a, signal, outcome) == Voters(b, signal, outcome)
  {
    forall mn
      ensures mn in Voters(a, signal, outcome) <==> mn in Voters(b, signal, outcome)
    {
      assert mn in Voters(a, signal, outcome) <==> Rec(a, mn, signal).outcome == outcome;
      assert mn in Voters(b, signal, outcome) <==> Rec(b, mn, signal).outcome == outcome;
    }
  }

  /** Two nodes that have received the same votes, each in its own order and with its own repetitions, count alike. */
  method TalliesConverge(a: GovernanceObject, b: GovernanceObject, votes: seq<Vote>, votes': seq<Vote>,
                         signal: int, outcome: int) returns (na: nat, nb: nat)
    requires a != b && a.fileVotes != b.fileVotes && a.objectHash == b.objectHash && a.Valid() && b.Valid()
    requires forall mn, s :: a.MarkOf(mn, s) == Unset && b.MarkOf(mn, s) == Unset
    requires SameVotes(votes, votes') && forall v | v in votes :: v.parent == a.objectHash
    requires outcome != VOTE_OUTCOME_NONE
    modifies a, a.fileVotes, b, b.fileVotes
    ensures na == nb == |Voters(a.mapCurrentMNVotes, signal, outcome)|
    ensures Voters(a.mapCurrentMNVotes, signal, outcome) == Voters(b.mapCurrentMNVotes, signal, outcome)
  {
    a.DeliverAll(votes);
    b.DeliverAll(votes');
    forall mn
      ensures Rec(a.mapCurrentMNVotes, mn, signal).outcome == Rec(b.mapCurrentMNVotes, mn, signal).outcome
    {
      RecordsConverge(votes, votes', mn, signal);
      MarkIsRecord(a.objectHash, a.mapCurrentMNVotes, a.fileVotes.mapVoteIndex.Keys, mn, signal);
      MarkIsRecord(b.objectHash, b.mapCurrentMNVotes, b.fileVotes.mapVoteIndex.Keys, mn, signal);
    }
    SameVoters(a.mapCurrentMNVotes, b.mapCurrentMNVotes, signal, outcome);
    na := a.CountMatchingVotes(signal, outcome);
    nb := b.CountMatchingVotes(signal, outcome);
  }
}
