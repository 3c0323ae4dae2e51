/**
The backtracking search that gives every service of a chain to a staff member. The services run one
after another from `start`; each needs a user who may perform it, is free for the whole segment, and
is not already used at that time.
*/
module Assign {
  import opened Windows

  type UserId = string

  datatype Attendee = Attendee(serviceId: string, durationMin: int)
  datatype Used = Used(userId: UserId, start: int, end: int)
  datatype Assigned = Assigned(serviceId: string, userId: UserId, start: int, end: int)

  /** What one search reads and never changes. */
  datatype Problem = Problem(
    start: int,
    attendees: seq<Attendee>,
    eligibleUsersByService: map<string, seq<UserId>>,
    freeWindowsByUser: map<UserId, seq<Window>>)
  {
    /** The users who may perform service `k` of the chain, in the order they are tried. */
    function Candidates(k: nat): seq<UserId>
      requires k < |attendees|
    {
      var id := attendees[k].serviceId;
      if id in eligibleUsersByService then eligibleUsersByService[id] else []
    }

    function WindowsOf(u: UserId): seq<Window> {
      if u in freeWindowsByUser then freeWindowsByUser[u] else []
    }

    function SegStart(k: nat): int
      requires k <= |attendees|
    {
      start + SumDurations(attendees[..k]) * MINUTE
    }

    function SegEnd(k: nat): int
      requires k < |attendees|
    {
      SegStart(k) + attendees[k].durationMin * MINUTE
    }

    ghost predicate Fits(k: nat, u: UserId)
      requires k < |attendees|
    {
      exists i :: 0 <= i < |WindowsOf(u)| && WindowContains(WindowsOf(u)[i], SegStart(k), SegEnd(k))
    }

    ghost predicate NonNegativeDurations() {
      forall k :: 0 <= k < |attendees| ==> attendees[k].durationMin >= 0
    }
  }

  function SumDurations(a: seq<Attendee>): int {
    if a == [] then 0 else SumDurations(a[..|a| - 1]) + a[|a| - 1].durationMin
  }

  /** Segments lie end to end from the start on, each as long as its service. */
  lemma SegmentsConsecutive(p: Problem, k: nat)
    requires k < |p.attendees|
    ensures p.SegStart(0) == p.start
    ensures p.SegStart(k + 1) == p.SegEnd(k)
    ensures p.SegEnd(k) - p.SegStart(k) == p.attendees[k].durationMin * 60_000
  {
    assert p.attendees[..k + 1][..k] == p.attendees[..k];
  }

  predicate Clash(u: Used, uid: UserId, s: int, e: int) {
    u.userId == uid && s < u.end && e > u.start
  }

  ghost predicate Conflicts(used: seq<Used>, uid: UserId, s: int, e: int) {
    exists i :: 0 <= i < |used| && Clash(used[i], uid, s, e)
  }

  // ----- What the search is for, said without searching

  /**
  `choice` gives a user to each service from `idx` on: an eligible one, free for the segment, with
  no clash against `used` and no clash between two segments given to the same user.
  */
  ghost predicate ValidChoice(p: Problem, used: seq<Used>, idx: nat, choice: seq<UserId>)
    requires idx <= |p.attendees|
  {
    && |choice| == |p.attendees| - idx
    && (forall k :: 0 <= k < |choice| ==>
          && choice[k] in p.Candidates(idx + k)
          && p.Fits(idx + k, choice[k])
          && !Conflicts(used, choice[k], p.SegStart(idx + k), p.SegEnd(idx + k)))
    && (forall j, k :: 0 <= j < k < |choice| ==>
          !Clash(UsedEntry(p, idx + j, choice[j]), choice[k], p.SegStart(idx + k), p.SegEnd(idx + k)))
  }

  function UsedEntry(p: Problem, k: nat, u: UserId): Used
    requires k < |p.attendees|
  {
    Used(u, p.SegStart(k), p.SegEnd(k))
  }

  function AssignedEntry(p: Problem, k: nat, u: UserId): Assigned
    requires k < |p.attendees|
  {
    Assigned(p.attendees[k].serviceId, u, p.SegStart(k), p.SegEnd(k))
  }

  function UsedEntries(p: Problem, idx: nat, choice: seq<UserId>): (r: seq<Used>)
    requires idx + |choice| == |p.attendees|
    decreases |choice|
  {
    if choice == [] then [] else [UsedEntry(p, idx, choice[0])] + UsedEntries(p, idx + 1, choice[1..])
  }

  function AssignedEntries(p: Problem, idx: nat, choice: seq<UserId>): (r: seq<Assigned>)
    requires idx + |choice| == |p.attendees|
    decreases |choice|
  {
    if choice == [] then [] else [AssignedEntry(p, idx, choice[0])] + AssignedEntries(p, idx + 1, choice[1..])
  }

  /** The position at which `u` is first tried. */
  function Rank(u: UserId, candidates: seq<UserId>): (r: nat)
    ensures r <= |candidates|
    ensures u in candidates ==> r < |candidates| && candidates[r] == u
    ensures forall i :: 0 <= i < r ==> candidates[i] != u
  {
    if candidates == [] || candidates[0] == u then 0 else 1 + Rank(u, candidates[1..])
  }

  /** `a` comes no later than `b` when choices are compared service by service in trial order. */
  ghost predicate NoLater(p: Problem, idx: nat, a: seq<UserId>, b: seq<UserId>)
    requires idx + |a| == |p.attendees| && |a| == |b|
    decreases |a|
  {
    a == [] ||
    Rank(a[0], p.Candidates(idx)) < Rank(b[0], p.Candidates(idx)) ||
    (a[0] == b[0] && NoLater(p, idx + 1, a[1..], b[1..]))
  }

  ghost predicate Satisfiable(p: Problem, used: seq<Used>, idx: nat)
    requires idx <= |p.attendees|
  {
    exists c :: ValidChoice(p, used, idx, c)
  }

  ghost predicate FirstValid(p: Problem, used: seq<Used>, idx: nat, choice: seq<UserId>)
    requires idx <= |p.attendees|
  {
    && ValidChoice(p, used, idx, choice)
    && forall other :: ValidChoice(p, used, idx, other) ==> NoLater(p, idx, choice, other)
  }

  lemma {:induction false} NoLaterAntisymmetric(p: Problem, idx: nat, a: seq<UserId>, b: seq<UserId>)
    requires idx + |a| == |p.attendees| && |a| == |b|
    requires NoLater(p, idx, a, b) && NoLater(p, idx, b, a)
    ensures a == b
    decreases |a|
  {
    if a != [] {
      NoLaterAntisymmetric(p, idx + 1, a[1..], b[1..]);
      assert a == [a[0]] + a[1..] && b == [b[0]] + b[1..];
    }
  }

  /** A valid choice is a valid first pick followed by a valid choice that counts that pick as used. */
  lemma ValidChoiceUnfold(p: Problem, used: seq<Used>, idx: nat, choice: seq<UserId>)
    requires idx < |p.attendees| && |choice| == |p.attendees| - idx
    ensures ValidChoice(p, used, idx, choice) <==>
            && choice[0] in p.Candidates(idx)
            && p.Fits(idx, choice[0])
            && !Conflicts(used, choice[0], p.SegStart(idx), p.SegEnd(idx))
            && ValidChoice(p, used + [UsedEntry(p, idx, choice[0])], idx + 1, choice[1..])
  {
    var entry := UsedEntry(p, idx, choice[0]);
    var used' := used + [entry];
    var rest := choice[1..];
    forall u, s, e ensures Conflicts(used', u, s, e) <==> Conflicts(used, u, s, e) || Clash(entry, u, s, e) {
      if Conflicts(used, u, s, e) {
        var i :| 0 <= i < |used| && Clash(used[i], u, s, e);
        assert Clash(used'[i], u, s, e);
      }
      assert used'[|used|] == entry;
    }
    if ValidChoice(p, used, idx, choice) {
      forall k | 0 <= k < |rest| ensures
          && rest[k] in p.Candidates(idx + 1 + k)
          && p.Fits(idx + 1 + k, rest[k])
          && !Conflicts(used', rest[k], p.SegStart(idx + 1 + k), p.SegEnd(idx + 1 + k)) {
        assert rest[k] == choice[k + 1];
      }
      forall j, k | 0 <= j < k < |rest| ensures
          !Clash(UsedEntry(p, idx + 1 + j, rest[j]), rest[k], p.SegStart(idx + 1 + k), p.SegEnd(idx + 1 + k)) {
        assert rest[j] == choice[j + 1] && rest[k] == choice[k + 1];
      }
      assert ValidChoice(p, used', idx + 1, rest);
    }
    if choice[0] in p.Candidates(idx) && p.Fits(idx, choice[0])
      && !Conflicts(used, choice[0], p.SegStart(idx), p.SegEnd(idx)) && ValidChoice(p, used', idx + 1, rest) {
      forall k | 0 <= k < |choice| ensures
          && choice[k] in p.Candidates(idx + k)
          && p.Fits(idx + k, choice[k])
          && !Conflicts(used, choice[k], p.SegStart(idx + k), p.SegEnd(idx + k)) {
        if k > 0 {
          assert choice[k] == rest[k - 1];
        }
      }
      forall j, k | 0 <= j < k < |choice| ensures
          !Clash(UsedEntry(p, idx + j, choice[j]), choice[k], p.SegStart(idx + k), p.SegEnd(idx + k)) {
        assert choice[k] == rest[k - 1];
        if j > 0 {
          assert choice[j] == rest[j - 1];
          assert !Clash(UsedEntry(p, idx + 1 + (j - 1), rest[j - 1]), rest[k - 1], p.SegStart(idx + 1 + (k - 1)),
              p.SegEnd(idx + 1 + (k - 1)));
        }
      }
    }
  }

  // ----- The search

  /** The two arrays that all levels of the recursion share. */
  class SearchState {
    var usedByUserAt: seq<Used>
    var assignment: seq<Assigned>

    constructor (used: seq<Used>)
      ensures usedByUserAt == used && assignment == []
    {
      usedByUserAt := used;
      assignment := [];
    }
  }

  method FitsSomeWindow(p: Problem, k: nat, u: UserId) returns (fits: bool)
    requires k < |p.attendees|
    ensures fits <==> p.Fits(k, u)
  {
    fits := false;
    var wins := p.WindowsOf(u);
    for i := 0 to |wins|
      invariant forall j :: 0 <= j < i ==> !WindowContains(wins[j], p.SegStart(k), p.SegEnd(k))
    {
      if WindowContains(wins[i], p.SegStart(k), p.SegEnd(k)) {
        return true;
      }
    }
  }

  method HasConflict(used: seq<Used>, uid: UserId, s: int, e: int) returns (conflicts: bool)
    ensures conflicts <==> Conflicts(used, uid, s, e)
  {
    conflicts := false;
    for i := 0 to |used|
      invariant forall j :: 0 <= j < i ==> !Clash(used[j], uid, s, e)
    {
      if Clash(used[i], uid, s, e) {
        return true;
      }
    }
  }

  /**
  Exact in both directions: true iff a valid choice exists. On true the shared arrays have grown by
  the first valid choice in trial order, one entry per service; on false they are as they were.
  */
  method AssignSequentially(p: Problem, idx: nat, ctx: SearchState) returns (ok: bool, ghost choice: seq<UserId>)
    requires idx <= |p.attendees|
    modifies ctx
    ensures ok <==> Satisfiable(p, old(ctx.usedByUserAt), idx)
    ensures ok ==>
              && FirstValid(p, old(ctx.usedByUserAt), idx, choice)
              && ctx.usedByUserAt == old(ctx.usedByUserAt) + UsedEntries(p, idx, choice)
              && ctx.assignment == old(ctx.assignment) + AssignedEntries(p, idx, choice)
    ensures !ok ==> ctx.usedByUserAt == old(ctx.usedByUserAt) && ctx.assignment == old(ctx.assignment)
    decreases |p.attendees| - idx
  {
    choice := [];
    ghost var used, placed := ctx.usedByUserAt, ctx.assignment;
    if idx >= |p.attendees| {
      assert ValidChoice(p, used, idx, []);
      return true, [];
    }
    var segStart, segEnd := p.SegStart(idx), p.SegEnd(idx);
    var candidates := p.Candidates(idx);
    for i := 0 to |candidates|
      invariant ctx.usedByUserAt == used && ctx.assignment == placed
      invariant NoneStartsWith(p, used, idx, i)
    {
      var uid := candidates[i];
      var fits := FitsSomeWindow(p, idx, uid);
      if !fits {
        CannotStart(p, used, idx, i);
        continue;
      }
      var conflicts := HasConflict(ctx.usedByUserAt, uid, segStart, segEnd);
      if conflicts {
        CannotStart(p, used, idx, i);
        continue;
      }
      ctx.usedByUserAt := ctx.usedByUserAt + [UsedEntry(p, idx, uid)];
      ctx.assignment := ctx.assignment + [AssignedEntry(p, idx, uid)];
      ghost var rest;
      ok, rest := AssignSequentially(p, idx + 1, ctx);
      if ok {
        choice := [uid] + rest;
        SucceedsWith(p, used, idx, i, rest);
        EntriesUnfold(p, idx, uid, rest, used, placed);
        return true, choice;
      }
      CannotStart(p, used, idx, i);
      ctx.usedByUserAt := ctx.usedByUserAt[..|ctx.usedByUserAt| - 1];
      ctx.assignment := ctx.assignment[..|ctx.assignment| - 1];
    }
    AllTried(p, used, idx);
    return false, [];
  }

  /** No valid choice starts with one of the first `tried` candidates. */
  ghost predicate NoneStartsWith(p: Problem, used: seq<Used>, idx: nat, tried: nat)
    requires idx < |p.attendees| && tried <= |p.Candidates(idx)|
  {
    forall c, i :: ValidChoice(p, used, idx, c) && 0 <= i < tried ==> c[0] != p.Candidates(idx)[i]
  }

  lemma CannotStart(p: Problem, used: seq<Used>, idx: nat, i: nat)
    requires idx < |p.attendees| && i < |p.Candidates(idx)|
    requires NoneStartsWith(p, used, idx, i)
    requires
      var uid := p.Candidates(idx)[i];
      || !p.Fits(idx, uid)
      || Conflicts(used, uid, p.SegStart(idx), p.SegEnd(idx))
      || !Satisfiable(p, used + [UsedEntry(p, idx, uid)], idx + 1)
    ensures NoneStartsWith(p, used, idx, i + 1)
  {
    forall c | ValidChoice(p, used, idx, c) ensures c[0] != p.Candidates(idx)[i] {
      ValidChoiceUnfold(p, used, idx, c);
    }
  }

  lemma AllTried(p: Problem, used: seq<Used>, idx: nat)
    requires idx < |p.attendees|
    requires NoneStartsWith(p, used, idx, |p.Candidates(idx)|)
    ensures !Satisfiable(p, used, idx)
  {
    forall c ensures !ValidChoice(p, used, idx, c) {
      if |c| == |p.attendees| - idx {
        ValidChoiceUnfold(p, used, idx, c);
      }
    }
  }

  lemma EntriesUnfold(p: Problem, idx: nat, uid: UserId, rest: seq<UserId>, used: seq<Used>, placed: seq<Assigned>)
    requires idx + 1 + |rest| == |p.attendees|
    ensures used + [UsedEntry(p, idx, uid)] + UsedEntries(p, idx + 1, rest) == used + UsedEntries(p, idx, [uid] + rest)
    ensures placed + [AssignedEntry(p, idx, uid)] + AssignedEntries(p, idx + 1, rest) ==
            placed + AssignedEntries(p, idx, [uid] + rest)
  {
    assert ([uid] + rest)[1..] == rest;
  }

  lemma SucceedsWith(p: Problem, used: seq<Used>, idx: nat, i: nat, rest: seq<UserId>)
    requires idx < |p.attendees| && i < |p.Candidates(idx)|
    requires NoneStartsWith(p, used, idx, i)
    requires p.Fits(idx, p.Candidates(idx)[i])
    requires !Conflicts(used, p.Candidates(idx)[i], p.SegStart(idx), p.SegEnd(idx))
    requires FirstValid(p, used + [UsedEntry(p, idx, p.Candidates(idx)[i])], idx + 1, rest)
    ensures FirstValid(p, used, idx, [p.Candidates(idx)[i]] + rest)
    ensures Satisfiable(p, used, idx)
  {
    var uid := p.Candidates(idx)[i];
    var choice := [uid] + rest;
    assert choice[1..] == rest;
    ValidChoiceUnfold(p, used, idx, choice);
    forall other | ValidChoice(p, used, idx, other) ensures NoLater(p, idx, choice, other) {
      ValidChoiceUnfold(p, used, idx, other);
      RankAtFirst(p.Candidates(idx), i);
      RankBeyond(p.Candidates(idx), i, other[0]);
    }
  }

  /** A candidate that differs from all before it has its own position as rank. */
  lemma RankAtFirst(candidates: seq<UserId>, i: nat)
    requires i < |candidates| && forall j :: 0 <= j < i ==> candidates[j] != candidates[i]
    ensures Rank(candidates[i], candidates) == i
  {
  }

  lemma RankBeyond(candidates: seq<UserId>, i: nat, u: UserId)
    requires i < |candidates| && u in candidates && forall j :: 0 <= j < i ==> candidates[j] != u
    ensures Rank(u, candidates) >= i
    ensures Rank(u, candidates) == i ==> u == candidates[i]
  {
  }

  // ----- Backtracking is never needed when nothing was used before

  /** Every used entry is over by the time service `idx` starts. */
  ghost predicate Quiet(p: Problem, used: seq<Used>, idx: nat)
    requires idx <= |p.attendees|
  {
    forall i :: 0 <= i < |used| ==> used[i].end <= p.SegStart(idx)
  }

  /** At any depth of a search that started with nothing used, no used entry can clash with the segment to place. */
  lemma QuietNeverConflicts(p: Problem, used: seq<Used>, idx: nat, u: UserId)
    requires p.NonNegativeDurations()
    requires idx < |p.attendees| && Quiet(p, used, idx)
    ensures !Conflicts(used, u, p.SegStart(idx), p.SegEnd(idx))
    ensures Quiet(p, used + [UsedEntry(p, idx, u)], idx + 1)
  {
    SegmentsConsecutive(p, idx);
  }

  /** The first user of service `k`, in trial order, whose free time holds its segment. */
  ghost predicate FirstFit(p: Problem, k: nat, u: UserId)
    requires k < |p.attendees|
  {
    && u in p.Candidates(k) && p.Fits(k, u)
    && forall v :: v in p.Candidates(k) && p.Fits(k, v) ==> Rank(u, p.Candidates(k)) <= Rank(v, p.Candidates(k))
  }

  ghost predicate HasFit(p: Problem, k: nat)
    requires k < |p.attendees|
  {
    exists v :: v in p.Candidates(k) && p.Fits(k, v)
  }

  lemma FirstFitExists(p: Problem, k: nat) returns (u: UserId)
    requires k < |p.attendees|
    requires HasFit(p, k)
    ensures FirstFit(p, k, u)
  {
    var cs := p.Candidates(k);
    var v :| v in cs && p.Fits(k, v);
    var r := 0;
    while !p.Fits(k, cs[r])
      invariant r < |cs|
      invariant forall i :: 0 <= i < r ==> !p.Fits(k, cs[i])
      decreases |cs| - r
    {
      if r + 1 == |cs| {
        var j :| 0 <= j < |cs| && cs[j] == v;
        assert false;
      }
      r := r + 1;
    }
    u := cs[r];
    RankAtFirst(cs, r);
    forall w | w in cs && p.Fits(k, w) ensures Rank(u, cs) <= Rank(w, cs) {
      RankBeyond(cs, r, w);
    }
  }

  ghost predicate AllFirstFit(p: Problem, idx: nat, choice: seq<UserId>)
    requires idx <= |p.attendees|
  {
    |choice| == |p.attendees| - idx && forall k :: 0 <= k < |choice| ==> FirstFit(p, idx + k, choice[k])
  }

  lemma {:induction false} GreedyIsFirstValid(p: Problem, used: seq<Used>, idx: nat, g: seq<UserId>)
    requires idx <= |p.attendees| && p.NonNegativeDurations() && Quiet(p, used, idx)
    requires AllFirstFit(p, idx, g)
    ensures FirstValid(p, used, idx, g)
    decreases |g|
  {
    if g == [] {
    } else {
      var used' := used + [UsedEntry(p, idx, g[0])];
      QuietNeverConflicts(p, used, idx, g[0]);
      assert FirstFit(p, idx + 0, g[0]);
      forall k | 0 <= k < |g[1..]| ensures FirstFit(p, idx + 1 + k, g[1..][k]) {
        assert FirstFit(p, idx + (k + 1), g[k + 1]);
      }
      GreedyIsFirstValid(p, used', idx + 1, g[1..]);
      ValidChoiceUnfold(p, used, idx, g);
      forall other | ValidChoice(p, used, idx, other) ensures NoLater(p, idx, g, other) {
        ValidChoiceUnfold(p, used, idx, other);
        RankInjective(g[0], other[0], p.Candidates(idx));
      }
    }
  }

  lemma RankInjective(u: UserId, v: UserId, candidates: seq<UserId>)
    requires u in candidates && v in candidates
    ensures Rank(u, candidates) == Rank(v, candidates) ==> u == v
  {
  }

  lemma {:induction false} GreedyExists(p: Problem, idx: nat) returns (g: seq<UserId>)
    requires idx <= |p.attendees|
    requires forall k :: idx <= k < |p.attendees| ==> HasFit(p, k)
    ensures AllFirstFit(p, idx, g)
    decreases |p.attendees| - idx
  {
    if idx == |p.attendees| {
      g := [];
    } else {
      var u := FirstFitExists(p, idx);
      var rest := GreedyExists(p, idx + 1);
      g := [u] + rest;
      forall k | 0 <= k < |g| ensures FirstFit(p, idx + k, g[k]) {
        if k > 0 {
          assert FirstFit(p, idx + 1 + (k - 1), rest[k - 1]);
        }
      }
    }
  }

  /**
  With nothing still in use and no negative duration, the backtracking search is the greedy one: it
  succeeds iff every service on its own has a fitting user, and then its answer is the first fitting
  user of each service, picked independently.
  */
  lemma BacktrackingIsGreedy(p: Problem, used: seq<Used>, idx: nat, choice: seq<UserId>)
    requires idx <= |p.attendees| && p.NonNegativeDurations() && Quiet(p, used, idx)
    ensures Satisfiable(p, used, idx) <==> forall k :: idx <= k < |p.attendees| ==> HasFit(p, k)
    ensures FirstValid(p, used, idx, choice) <==> AllFirstFit(p, idx, choice)
  {
    if c :| ValidChoice(p, used, idx, c) {
      forall k | idx <= k < |p.attendees| ensures HasFit(p, k) {
        assert c[k - idx] in p.Candidates(idx + (k - idx)) && p.Fits(idx + (k - idx), c[k - idx]);
      }
    }
    if forall k :: idx <= k < |p.attendees| ==> HasFit(p, k) {
      var g := GreedyExists(p, idx);
      GreedyIsFirstValid(p, used, idx, g);
      if FirstValid(p, used, idx, choice) {
        NoLaterAntisymmetric(p, idx, choice, g);
      }
    }
    if AllFirstFit(p, idx, choice) {
      GreedyIsFirstValid(p, used, idx, choice);
    }
  }
}
