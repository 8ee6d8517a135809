/** Equal bytes are compressed to a few bytes for every 255 of them. */
module QuickLzRuns {
  import opened Bytes
  import opened QuickLzFormat
  import opened QuickLzGreedy

  /** A plan for equal bytes that are sent first. */
  ghost predicate RunPlan(plan: Plan) {
    AllEqual(plan.data) && Begins(Context([], {}), plan.data, plan) && Greedy(plan)
  }

  /** Far enough from the end for a match. */
  predicate InMain(plan: Plan, i: nat)
    requires i < |plan.ps|
  {
    plan.ps[i] + UNCONDITIONAL_MATCHLEN + UNCOMPRESSED_END < |plan.data|
  }

  /** Four literals, then matches of 255 bytes. */
  function RunPosition(i: nat): nat {
    if i <= 4 then i else 4 + 255 * (i - 4)
  }

  lemma SameHashes(data: seq<byte>, p: nat, q: nat)
    requires AllEqual(data) && p + 3 <= |data| && q + 3 <= |data|
    ensures HashAt(data, p) == HashAt(data, q)
  {
    hide HashBytes;
    assert data[p] == data[q] && data[p + 1] == data[q + 1] && data[p + 2] == data[q + 2];
  }

  lemma SameInRun(data: seq<byte>, o: nat, p: nat, length: nat)
    requires AllEqual(data) && o < p && p + length <= |data|
    ensures SameBytes(data, o, p, length)
  {
  }

  /** The entry for an item of a run is the start of the item before it. */
  lemma EntryInRun(plan: Plan, i: nat)
    requires RunPlan(plan) && 0 < i < |plan.items| && InMain(plan, i)
    ensures plan.ps[i - 1] < plan.ps[i] && Entry(plan, i) == plan.ps[i - 1]
  {
    hide HashAt, Greedy, AllEqual, Matches;
    var p, q := plan.ps[i], plan.ps[i - 1];
    assert Stands(plan.items[i - 1], plan.data, q, plan.hashed) && p == q + plan.items[i - 1].Size();
    SameHashes(plan.data, p, q);
    LatestSkips(plan.hashed, plan.data, HashAt(plan.data, p), q, p - 1);
  }

  lemma NoEntryAtStart(plan: Plan)
    requires RunPlan(plan) && plan.items != []
    ensures !Matches(plan, 0)
  {
  }

  /** Where the items of a run stand, and which of them are matches. */
  lemma {:induction false} RunItem(plan: Plan, i: nat)
    requires RunPlan(plan) && i < |plan.items| && InMain(plan, i)
    ensures plan.ps[i] == RunPosition(i) && (plan.items[i].Match? <==> i >= 4)
    decreases i, 1
  {
    hide HashAt, Latest, Greedy, AllEqual;
    if i == 0 {
      NoEntryAtStart(plan);
      ChosenAt(plan, 0);
    } else {
      assert plan.ps[i] == plan.ps[i - 1] + plan.items[i - 1].Size();
      RunItem(plan, i - 1);
      if i >= 4 { ItemsBefore(plan, i); }
      EntryInRun(plan, i);
      MatchesInRun(plan, i);
      ChosenAt(plan, i);
      if i > 4 { FullLength(plan, i - 1); }
    }
  }

  lemma ChosenAt(plan: Plan, i: nat)
    requires RunPlan(plan) && i < |plan.items|
    ensures Chosen(plan, i)
  {
  }

  lemma {:induction false} ItemsBefore(plan: Plan, i: nat)
    requires RunPlan(plan) && 4 <= i < |plan.items| && InMain(plan, i)
    ensures i == 4 ==> BehindLiterals(plan.items, 4)
    decreases i, 0
  {
    hide HashAt, Latest, Greedy, AllEqual;
    if i == 4 {
      PositionsGrow(plan, 1, 4);
      PositionsGrow(plan, 2, 4);
      RunItem(plan, 1);
      RunItem(plan, 2);
      RunItem(plan, 3);
    }
  }

  lemma MatchesInRun(plan: Plan, i: nat)
    requires RunPlan(plan) && 0 < i < |plan.items| && InMain(plan, i) && Entry(plan, i) == plan.ps[i - 1] < plan.ps[i]
    requires i <= 4 ==> plan.ps[i - 1] == i - 1 && plan.ps[i] == i
    requires i == 4 ==> BehindLiterals(plan.items, 4)
    requires i > 4 ==> plan.items[i - 1].Match?
    ensures Matches(plan, i) <==> i >= 4
  {
    hide HashAt, Latest, Greedy, Entry;
    var p := plan.ps[i];
    SameInRun(plan.data, plan.ps[i - 1], p, 3);
    if i == 4 { assert InRun(plan.data, 4); }
    if i > 4 { assert p == plan.ps[i - 1] + plan.items[i - 1].length && plan.items[i - 1].Encodable(); }
  }

  /** A match that is not the last one in the run has full length. */
  lemma FullLength(plan: Plan, i: nat)
    requires RunPlan(plan) && i + 1 < |plan.ps| && InMain(plan, i + 1) && plan.items[i].Match?
    ensures plan.items[i].length == 255
  {
    hide HashAt, Latest, Greedy;
    ChosenAt(plan, i);
  }

  // ---- how many bytes that takes ----

  lemma {:induction false} StreamSize(items: seq<Item>, left: nat)
    requires AllEncodable(items) && left <= GROUP
    ensures 31 * |Stream(items, left)| <= 97 * |items| + 4 * (31 - left)
    decreases |items|, left == 0
  {
    if items != [] {
      if left == 0 { StreamSize(items, GROUP); } else { StreamSize(items[1..], left - 1); }
    }
  }

  /** The last ten bytes at most are literals. */
  lemma {:induction false} TailItems(plan: Plan, i: nat)
    requires RunPlan(plan) && plan.Whole() && i <= |plan.items| && !InMain(plan, i)
    ensures |plan.items| - i == |plan.data| - plan.ps[i]
    decreases |plan.items| - i
  {
    if i < |plan.items| {
      ChosenAt(plan, i);
      TailItems(plan, i + 1);
    }
  }

  /** How many items stand in front of them. */
  lemma {:induction false} MainItems(plan: Plan, i: nat) returns (m: nat)
    requires RunPlan(plan) && plan.Whole() && i <= |plan.items| && (i > 0 ==> InMain(plan, i - 1))
    ensures m <= |plan.items| && !InMain(plan, m) && (m > 0 ==> InMain(plan, m - 1))
    decreases |plan.items| - i
  {
    if i < |plan.items| && InMain(plan, i) { m := MainItems(plan, i + 1); } else { m := i; }
  }

  lemma RunItems(plan: Plan)
    requires RunPlan(plan) && plan.Whole()
    ensures |plan.items| <= |plan.data| / 255 + 15
  {
    hide Greedy, AllEqual;
    var m := MainItems(plan, 0);
    TailItems(plan, m);
    if m > 0 { RunItem(plan, m - 1); }
  }

  lemma RunReaches(plan: Plan, i: nat)
    requires RunPlan(plan) && i <= |plan.items| && InMain(plan, i)
    ensures plan.ps[i] == RunPosition(i) && plan.ps[0] == 0
  {
    hide Greedy, AllEqual;
    if i > 0 {
      PositionsGrow(plan, i - 1, i);
      RunItem(plan, i - 1);
      if i > 4 { FullLength(plan, i - 1); }
    }
  }

  lemma SavesEnough(i: nat, size: nat)
    requires i >= 31 && 31 * size <= 97 * i + 124
    ensures size <= RunPosition(i) - RunPosition(i) / 32
  {
  }

  /** The compressor does not give up on equal bytes. */
  lemma RunSaves(plan: Plan, i: nat)
    requires RunPlan(plan) && i <= |plan.items|
    ensures !TooPoor(plan, i)
  {
    hide Greedy, AllEqual, Stream, RunPosition;
    if InMain(plan, i) && i >= 31 {
      RunReaches(plan, i);
      StreamSize(plan.items[..i], 0);
      SavesEnough(i, |Stream(plan.items[..i], 0)|);
    }
  }

  lemma RunSize(plan: Plan)
    requires RunPlan(plan) && plan.Whole()
    ensures |Stream(plan.items, 0)| <= 4 * (|plan.data| / 255) + 51
  {
    hide Greedy, AllEqual, Stream;
    RunItems(plan);
    StreamSize(plan.items, 0);
  }
}
