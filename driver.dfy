/** The two batch drivers of the client's `main`, run against the flow table
    once the options have been decoded and the template entry initialised.
    The add batch stores `count` copies of the template, advancing the
    destination MAC by one after each success and stopping at the first
    failure. The list/delete walk probes the template, falls back to the next
    entry when the probe fails, and then follows the table's enumeration
    order, optionally deleting each entry it passes, until a call does not
    return OK or `count` entries have been handled. */
module TableDriver {

  import opened Wrappers
  import opened AclTypes
  import opened AddressSequencer
  import opened FlowTable

  /** The idle timeout every flow the client writes carries, in seconds. */
  const IdleTime: nat := 30

  // ---------------------------------------------------------------------
  // The add batch.

  /** The destination MAC of the k-th flow of a batch: k steps of `incrementMac`. */
  function Advance(m: Mac, k: nat): Mac
  {
    if k == 0 then m else NextMac(Advance(m, k - 1))
  }

  /** Adding one commutes with reduction modulo 2^48. */
  lemma ModSucc(x: nat)
    ensures (x % MacSpace + 1) % MacSpace == (x + 1) % MacSpace
  {
    var q, r := x / MacSpace, x % MacSpace;
    assert x == q * MacSpace + r;
    if r + 1 == MacSpace {
      assert x + 1 == (q + 1) * MacSpace;
    } else {
      assert x + 1 == q * MacSpace + (r + 1);
    }
  }

  /** Below twice the modulus, reduction subtracts it at most once. */
  lemma WrapOnce(x: nat)
    requires x < 2 * MacSpace
    ensures x % MacSpace == if x < MacSpace then x else x - MacSpace
  {
    if x >= MacSpace {
      assert x == 1 * MacSpace + (x - MacSpace);
    }
  }

  /** k steps of the sequencer add k to the address, modulo 2^48. */
  lemma {:induction false} AdvanceValue(m: Mac, k: nat)
    ensures MacToNat(Advance(m, k)) == (MacToNat(m) + k) % MacSpace
  {
    if k > 0 {
      AdvanceValue(m, k - 1);
      ModSucc(MacToNat(m) + k - 1);
    }
  }

  /** The flows a batch of n adds writes, in order: the k-th is the template
      with its destination MAC advanced by k. */
  function Batch(t: FlowEntry, n: nat): (r: seq<FlowEntry>)
    ensures |r| == n
    ensures forall k :: 0 <= k < n ==> r[k] == WithDestMac(t, Advance(DestMac(t), k))
  {
    if n == 0 then [] else Batch(t, n - 1) + [WithDestMac(t, Advance(DestMac(t), n - 1))]
  }

  /** The k-th flow of a batch carries the template's destination MAC plus
      k, modulo 2^48. */
  lemma BatchValues(t: FlowEntry, n: nat)
    ensures forall k :: 0 <= k < n ==>
      MacToNat(DestMac(Batch(t, n)[k])) == (MacToNat(DestMac(t)) + k) % MacSpace
  {
    var m := DestMac(t);
    forall k | 0 <= k < n
      ensures MacToNat(DestMac(Batch(t, n)[k])) == (MacToNat(m) + k) % MacSpace
    {
      assert DestMac(Batch(t, n)[k]) == Advance(m, k);
      AdvanceValue(m, k);
    }
  }

  lemma AdvanceSucc(m: Mac, k: nat)
    ensures Advance(m, k + 1) == NextMac(Advance(m, k))
  {
  }

  /** Setting the destination MAC twice keeps only the second. */
  lemma WithDestMacTwice(f: FlowEntry, a: Mac, b: Mac)
    ensures WithDestMac(WithDestMac(f, a), b) == WithDestMac(f, b)
  {
  }

  /** Consecutive flows of a batch differ only in the destination MAC, which
      goes up by exactly one (modulo 2^48): the next flow's MAC is what
      `incrementMac` makes of the previous one's. */
  lemma BatchSteps(t: FlowEntry, n: nat)
    ensures forall j, k :: 0 <= j && k == j + 1 && k < n ==>
      Batch(t, n)[k] == WithDestMac(Batch(t, n)[j], NextMac(DestMac(Batch(t, n)[j])))
  {
    forall j, k | 0 <= j && k == j + 1 && k < n
      ensures Batch(t, n)[k] == WithDestMac(Batch(t, n)[j], NextMac(DestMac(Batch(t, n)[j])))
    {
      BatchStep(t, n, j);
    }
  }

  lemma BatchStep(t: FlowEntry, n: nat, j: nat)
    requires j + 1 < n
    ensures Batch(t, n)[j + 1] == WithDestMac(Batch(t, n)[j], NextMac(DestMac(Batch(t, n)[j])))
  {
    var m := DestMac(t);
    var a := Advance(m, j);
    AdvanceSucc(m, j);
    WithDestMacTwice(t, a, NextMac(a));
  }

  /** Distinct positions below 2^48 give distinct counter values. */
  lemma OffsetsDistinct(v: nat, j: nat, k: nat)
    requires v < MacSpace && j < k < MacSpace
    ensures (v + j) % MacSpace != (v + k) % MacSpace
  {
    WrapOnce(v + j);
    WrapOnce(v + k);
  }

  /** A batch of at most 2^48 flows never repeats a destination MAC. */
  lemma BatchDistinct(t: FlowEntry, n: nat)
    requires n <= MacSpace
    ensures forall j, k :: 0 <= j < k < n ==> DestMac(Batch(t, n)[j]) != DestMac(Batch(t, n)[k])
  {
    var m := DestMac(t);
    forall j, k | 0 <= j < k < n
      ensures DestMac(Batch(t, n)[j]) != DestMac(Batch(t, n)[k])
    {
      assert DestMac(Batch(t, n)[j]) == Advance(m, j);
      assert DestMac(Batch(t, n)[k]) == Advance(m, k);
      AdvanceDistinct(m, j, k);
    }
  }

  /** Fewer than 2^48 steps of the sequencer never come back to an address. */
  lemma AdvanceDistinct(m: Mac, j: nat, k: nat)
    requires j < k < MacSpace
    ensures Advance(m, j) != Advance(m, k)
  {
    AdvanceValue(m, j);
    AdvanceValue(m, k);
    OffsetsDistinct(MacToNat(m), j, k);
  }

  /** The log of a run of adds that all returned OK. */
  function Accepted(b: seq<FlowEntry>): (r: seq<Call>)
    ensures |r| == |b| && forall k :: 0 <= k < |b| ==> r[k] == AddCall(b[k], Ok)
  {
    if |b| == 0 then [] else Accepted(b[..|b| - 1]) + [AddCall(b[|b| - 1], Ok)]
  }

  function Elements(b: seq<FlowEntry>): set<FlowEntry>
  {
    set e | e in b
  }

  lemma AcceptedAppend(b: seq<FlowEntry>, e: FlowEntry)
    ensures Accepted(b + [e]) == Accepted(b) + [AddCall(e, Ok)]
  {
    assert (b + [e])[..|b|] == b;
  }

  lemma ElementsAppend(b: seq<FlowEntry>, e: FlowEntry)
    ensures Elements(b + [e]) == Elements(b) + {e}
  {
  }

  /** The log of an add batch that stored `added` flows and stopped with
      `rc`: one accepted add per stored flow, then the add that failed, if
      one did. */
  function AddLog(t: FlowEntry, added: nat, rc: Status): seq<Call>
  {
    Accepted(Batch(t, added)) + (if rc.Ok? then [] else [AddCall(WithDestMac(t, Advance(DestMac(t), added)), rc)])
  }

  /** The log and the table after the adds of `b` were all accepted,
      starting from the log `log0` and the table `s0`. */
  ghost predicate Added(log0: seq<Call>, s0: set<FlowEntry>, log: seq<Call>, s: set<FlowEntry>, b: seq<FlowEntry>)
  {
    log == log0 + Accepted(b) && s == s0 + Elements(b)
  }

  /** One more accepted add extends the log and the entries by one. */
  lemma AddStep(log0: seq<Call>, s0: set<FlowEntry>, log: seq<Call>, s: set<FlowEntry>, b: seq<FlowEntry>,
                e: FlowEntry, log': seq<Call>, s': set<FlowEntry>)
    requires Added(log0, s0, log, s, b)
    requires log' == log + [AddCall(e, Ok)] && s' == s + {e}
    ensures Added(log0, s0, log', s', b + [e])
  {
    AcceptedAppend(b, e);
    ElementsAppend(b, e);
  }

  /** The add loop: at most `count` adds, none after the first that fails,
      each with the destination MAC one past the previous one. `added` is
      the loop counter at exit, the number of flows added. */
  method AddBatch(table: Table, template: FlowEntry, count: int) returns (rc: Status, added: nat)
    requires table.Valid()
    modifies table
    ensures table.Valid()
    ensures rc.Ok? ==> added == if count > 0 then count else 0
    ensures !rc.Ok? ==> added < count
    ensures table.log == old(table.log) + AddLog(template, added, rc)
    ensures table.entries == old(table.entries) + Elements(Batch(template, added))
  {
    var start := DestMac(template);
    var mac := new Byte[6](k requires 0 <= k < 6 => start[k]);
    var flow := template;
    assert flow == WithDestMac(template, start);
    rc := Ok;
    var i: nat := 0;
    while i < count
      invariant count > 0 ==> i <= count
      invariant count <= 0 ==> i == 0
      invariant rc.Ok?
      invariant mac[..] == Advance(start, i)
      invariant flow == WithDestMac(template, Advance(start, i))
      invariant table.Valid()
      invariant Added(old(table.log), old(table.entries), table.log, table.entries, Batch(template, i))
    {
      ghost var log, s := table.log, table.entries;
      rc := table.Add(flow);
      if !rc.Ok? {
        break;
      }
      AddStep(old(table.log), old(table.entries), log, s, Batch(template, i), flow, table.log, table.entries);
      assert Batch(template, i + 1) == Batch(template, i) + [flow];
      IncrementMac(mac);
      AdvanceSucc(start, i);
      WithDestMacTwice(template, Advance(start, i), mac[..]);
      flow := WithDestMac(flow, mac[..]);
      i := i + 1;
    }
    added := i;
  }

  // ---------------------------------------------------------------------
  // The list/delete walk.

  /** The walk's entries come in strictly increasing key order. */
  predicate Ascending(rank: FlowEntry -> nat, vs: seq<FlowEntry>)
  {
    forall j, k :: 0 <= j < k < |vs| ==> rank(vs[j]) < rank(vs[k])
  }

  /** Every entry of `s` whose key lies between those of the first and the
      last visited entry was visited. */
  predicate Complete(rank: FlowEntry -> nat, s: set<FlowEntry>, vs: seq<FlowEntry>)
  {
    |vs| > 0 ==> forall x :: x in s && rank(vs[0]) <= rank(x) <= rank(vs[|vs| - 1]) ==> x in vs
  }

  /** No entry of `s` has a key strictly between those of `lo` and `hi`. */
  predicate NoneBetween(rank: FlowEntry -> nat, s: set<FlowEntry>, lo: FlowEntry, hi: FlowEntry)
  {
    forall x :: x in s ==> !(rank(lo) < rank(x) < rank(hi))
  }

  /** Where the walk stops: its last entry, or the template when it visited none. */
  function LastOf(template: FlowEntry, vs: seq<FlowEntry>): FlowEntry
  {
    if |vs| == 0 then template else vs[|vs| - 1]
  }

  /** What the walk keeps, starting from the table `s0`: it has visited
      entries of `s0` in key order without skipping any, and the table `s`
      has lost at most the visited entries, none at all when not deleting.
      Once the walk ends, these two bounds on `s` follow from the exact
      `s == s0 - Removed(vs, steps)` in `Walk`; they are here because the
      loop invariant (`Stepwise`) carries them and the coverage proofs use
      them before the removed set is known. */
  predicate Walked(rank: FlowEntry -> nat, s0: set<FlowEntry>, s: set<FlowEntry>, vs: seq<FlowEntry>, delete: bool)
  {
    && (forall k :: 0 <= k < |vs| ==> vs[k] in s0)
    && Ascending(rank, vs)
    && Complete(rank, s0, vs)
    && s0 - Elements(vs) <= s <= s0
    && (!delete ==> s == s0)
  }

  /** `Walked` as the loop keeps it, stated without searching the visited
      sequence: no entry of `s0` lies between two consecutive visited
      entries, and whatever left the table lies within the visited keys. */
  ghost predicate Stepwise(rank: FlowEntry -> nat, s0: set<FlowEntry>, s: set<FlowEntry>, vs: seq<FlowEntry>, delete: bool)
  {
    && (forall k :: 0 <= k < |vs| ==> vs[k] in s0)
    && Ascending(rank, vs)
    && (forall j, k :: 0 <= j && k == j + 1 && k < |vs| ==> NoneBetween(rank, s0, vs[j], vs[k]))
    && s <= s0
    && (forall x :: x in s0 && x !in s ==> |vs| > 0 && rank(vs[0]) <= rank(x) <= rank(vs[|vs| - 1]))
    && (!delete ==> s == s0)
  }

  /** Consecutive visited entries with nothing stored between them leave
      out nothing between the first and the last. */
  lemma {:induction false} StepwiseComplete(rank: FlowEntry -> nat, s0: set<FlowEntry>, vs: seq<FlowEntry>)
    requires UniqueKeys(rank, s0)
    requires forall k :: 0 <= k < |vs| ==> vs[k] in s0
    requires forall j, k :: 0 <= j && k == j + 1 && k < |vs| ==> NoneBetween(rank, s0, vs[j], vs[k])
    ensures Complete(rank, s0, vs)
  {
    if |vs| > 1 {
      var init := vs[..|vs| - 1];
      StepwiseComplete(rank, s0, init);
      forall x | x in s0 && rank(vs[0]) <= rank(x) <= rank(vs[|vs| - 1])
        ensures x in vs
      {
        if rank(x) <= rank(init[|init| - 1]) {
          assert x in init;
        } else if rank(x) == rank(vs[|vs| - 1]) {
          assert x == vs[|vs| - 1];
        } else {
          assert NoneBetween(rank, s0, vs[|vs| - 2], vs[|vs| - 1]);
        }
      }
    }
  }

  /** The loop's form of the walk gives the walk as stated. */
  lemma StepwiseWalked(rank: FlowEntry -> nat, s0: set<FlowEntry>, s: set<FlowEntry>, vs: seq<FlowEntry>, delete: bool)
    requires UniqueKeys(rank, s0)
    requires Stepwise(rank, s0, s, vs, delete)
    ensures Walked(rank, s0, s, vs, delete)
  {
    StepwiseComplete(rank, s0, vs);
    forall x | x in s0 && x !in s
      ensures x in Elements(vs)
    {
      assert x in vs;
    }
  }

  /** The cursor `flow` has the key of the stored entry `cur`, which comes
      after the last visited entry with nothing of `s0` in between. */
  predicate AtCursor(rank: FlowEntry -> nat, s0: set<FlowEntry>, s: set<FlowEntry>, vs: seq<FlowEntry>,
                     cur: FlowEntry, flow: FlowEntry)
  {
    && cur in s && rank(cur) == rank(flow)
    && (|vs| > 0 ==> rank(vs[|vs| - 1]) < rank(flow) && NoneBetween(rank, s0, vs[|vs| - 1], flow))
  }

  /** Visiting the cursor's entry, and deleting it if asked, keeps the walk
      in order and shrinks the table at most by that entry. */
  lemma VisitStep(rank: FlowEntry -> nat, s0: set<FlowEntry>, s: set<FlowEntry>, s': set<FlowEntry>,
                  vs: seq<FlowEntry>, cur: FlowEntry, flow: FlowEntry, delete: bool)
    requires Stepwise(rank, s0, s, vs, delete)
    requires AtCursor(rank, s0, s, vs, cur, flow)
    requires s' == s || (delete && s' == Without(rank, s, flow))
    ensures Stepwise(rank, s0, s', vs + [cur], delete)
    ensures s' <= s
  {
    var vs' := vs + [cur];
    assert Ascending(rank, vs') by {
      forall j, k | 0 <= j < k < |vs'|
        ensures rank(vs'[j]) < rank(vs'[k])
      {
        if k == |vs| && j < |vs| - 1 {
          assert rank(vs[j]) < rank(vs[|vs| - 1]);
        }
      }
    }
    assert forall j, k :: 0 <= j && k == j + 1 && k < |vs'| ==> NoneBetween(rank, s0, vs'[j], vs'[k]) by {
      forall j, k | 0 <= j && k == j + 1 && k < |vs'|
        ensures NoneBetween(rank, s0, vs'[j], vs'[k])
      {
        if k < |vs| {
          assert vs'[j] == vs[j] && vs'[k] == vs[k];
        }
      }
    }
    forall x | x in s0 && x !in s'
      ensures rank(vs'[0]) <= rank(x) <= rank(vs'[|vs'| - 1])
    {
      if x in s {
        assert rank(x) == rank(flow);
      } else if |vs| > 0 {
        assert rank(x) <= rank(vs[|vs| - 1]);
      }
    }
  }

  /** After a NextGet that returned `next`, the cursor is on `next`, and fewer
      stored entries lie ahead than before the step. */
  lemma NextStep(rank: FlowEntry -> nat, s0: set<FlowEntry>, s: set<FlowEntry>, s': set<FlowEntry>,
                 vs: seq<FlowEntry>, flow: FlowEntry, next: FlowEntry, delete: bool)
    requires Stepwise(rank, s0, s', vs, delete)
    requires |vs| > 0 && rank(vs[|vs| - 1]) == rank(flow) && s' <= s
    requires next in s' && rank(next) > rank(flow) && IsLeast(rank, Above(rank, s', flow), next)
    ensures AtCursor(rank, s0, s', vs, next, next)
    ensures Above(rank, s', next) < Above(rank, s, flow)
  {
    assert NoneBetween(rank, s0, vs[|vs| - 1], next) by {
      forall x | x in s0 && rank(flow) < rank(x)
        ensures rank(next) <= rank(x)
      {
        if x in s' {
          assert x in Above(rank, s', flow);
        }
      }
    }
    assert next in Above(rank, s, flow) && next !in Above(rank, s', next);
  }

  /** A NextGet that found nothing after the last visited entry ends the
      walk with every entry of `s0` either visited or before the start. */
  lemma EndStep(rank: FlowEntry -> nat, s0: set<FlowEntry>, s': set<FlowEntry>,
                vs: seq<FlowEntry>, flow: FlowEntry, delete: bool)
    requires Stepwise(rank, s0, s', vs, delete)
    requires |vs| > 0 && rank(vs[|vs| - 1]) == rank(flow)
    requires Above(rank, s', flow) == {}
    ensures Above(rank, s0, vs[|vs| - 1]) == {}
  {
    forall x | x in s0
      ensures rank(x) <= rank(vs[|vs| - 1])
    {
      if x in s' {
        assert x !in Above(rank, s', flow);
      }
    }
  }

  /** A walk in key order that skips nothing goes from each entry to the
      next stored one: every visited entry after the first is the entry of
      `s0` whose key comes first after the previous one's. */
  lemma WalkFollowsOrder(rank: FlowEntry -> nat, s0: set<FlowEntry>, s: set<FlowEntry>, vs: seq<FlowEntry>, delete: bool)
    requires Walked(rank, s0, s, vs, delete)
    ensures forall j, k :: 0 <= j && k == j + 1 && k < |vs| ==>
      vs[k] in Above(rank, s0, vs[j]) && IsLeast(rank, Above(rank, s0, vs[j]), vs[k])
  {
  }

  /** One pass of the walk's loop: the cursor it worked on, the result of
      the delete when deleting, and the result and entry of the NextGet when
      the count allowed one. */
  datatype Step = Step(cursor: FlowEntry, deleted: Option<Status>, advanced: Option<(Status, FlowEntry)>)

  /** The remote calls of one pass, in order. */
  function StepCalls(s: Step): seq<Call>
  {
    (if s.deleted.Some? then [DeleteCall(s.cursor, s.deleted.value)] else []) +
    (if s.advanced.Some? then [NextCall(s.cursor, s.advanced.value.0, s.advanced.value.1)] else [])
  }

  /** The remote calls of a run of passes, in order. */
  function Calls(steps: seq<Step>): seq<Call>
  {
    if |steps| == 0 then [] else Calls(steps[..|steps| - 1]) + StepCalls(steps[|steps| - 1])
  }

  /** The status a pass leaves in `rc`: the NextGet's result, or NOT_FOUND
      when the count was reached. A failed delete is overwritten either way. */
  function PassResult(s: Step): Status
  {
    if s.advanced.Some? then s.advanced.value.0 else NotFound
  }

  /** The first visited entry, or the template when none was visited. */
  function FirstOf(template: FlowEntry, vs: seq<FlowEntry>): FlowEntry
  {
    if |vs| == 0 then template else vs[0]
  }

  /** The walk's whole log: the probe of the template, the fallback NextGet
      from the template when the probe did not return OK, then the passes. */
  function WalkLog(template: FlowEntry, probe: Status, start: Status, vs: seq<FlowEntry>, steps: seq<Step>): seq<Call>
  {
    [StatsCall(template, probe)] +
    (if probe.Ok? then [] else [NextCall(template, start, FirstOf(template, vs))]) +
    Calls(steps)
  }

  /** The passes match the visited entries one to one: the first pass works
      on the template itself when the probe found it, every other pass on the
      entry it visits; each deletes exactly when deleting; each calls NextGet
      exactly while the count allows; and every NextGet but the last returned
      OK with the entry the next pass visits. */
  ghost predicate Stepped(template: FlowEntry, count: int, delete: bool, probeOk: bool, vs: seq<FlowEntry>, steps: seq<Step>)
  {
    && |steps| == |vs|
    && (forall k :: 0 <= k < |steps| ==> steps[k].cursor == if k == 0 && probeOk then template else vs[k])
    && (forall k :: 0 <= k < |steps| ==> (steps[k].deleted.Some? <==> delete))
    && (forall k :: 0 <= k < |steps| ==> (steps[k].advanced.Some? <==> count == 0 || k + 1 < count))
    && (forall j, k :: 0 <= j && k == j + 1 && k < |steps| ==> steps[j].advanced == Some((Ok, vs[k])))
  }

  /** Every entry of `s0` after the template, up to where the walk stopped,
      was visited. */
  ghost predicate CoveredFrom(rank: FlowEntry -> nat, s0: set<FlowEntry>, template: FlowEntry, vs: seq<FlowEntry>)
  {
    forall x :: x in s0 && rank(template) < rank(x) <= rank(LastOf(template, vs)) ==> x in vs
  }

  /** The visited entries whose delete returned OK: what the walk removed. */
  ghost function Removed(vs: seq<FlowEntry>, steps: seq<Step>): set<FlowEntry>
  {
    set k | 0 <= k < |vs| && k < |steps| && steps[k].deleted == Some(Ok) :: vs[k]
  }

  /** The outcome of the walk from `template` over the table `s0`, which it
      leaves as `s`: `probe` is the StatsGet's result, `start` the status the
      loop is entered with (OK after a successful probe, otherwise the
      fallback NextGet's result), `vs` the visited entries, `steps` the
      passes and `rc` the final status. */
  ghost predicate Walk(rank: FlowEntry -> nat, s0: set<FlowEntry>, s: set<FlowEntry>, template: FlowEntry,
                 count: int, delete: bool, probe: Status, start: Status,
                 vs: seq<FlowEntry>, steps: seq<Step>, rc: Status)
  {
    && Walked(rank, s0, s, vs, delete)
    && Stepped(template, count, delete, probe.Ok?, vs, steps)
    && s == s0 - Removed(vs, steps)
    && (probe.Ok? ==> start.Ok?)
    && (start.Ok? <==> |vs| > 0)
    && !rc.Ok?
    && rc == (if |steps| == 0 then start else PassResult(steps[|steps| - 1]))
    && (|vs| > 0 ==> rank(template) <= rank(vs[0]) && (rank(vs[0]) == rank(template) <==> probe.Ok?))
    && CoveredFrom(rank, s0, template, vs)
    && (count > 0 ==> |vs| <= count)
    && (count < 0 ==> |vs| <= 1)
    && (rc.NotFound? && (count == 0 || |vs| < count) ==> Above(rank, s0, LastOf(template, vs)) == {})
  }

  /** Every visited entry after the first lies after the template. */
  lemma LaterAbove(rank: FlowEntry -> nat, s0: set<FlowEntry>, template: FlowEntry, vs: seq<FlowEntry>)
    requires (forall k :: 0 <= k < |vs| ==> vs[k] in s0) && Ascending(rank, vs)
    requires |vs| > 0 ==> rank(template) <= rank(vs[0])
    ensures forall k :: 0 < k < |vs| ==> vs[k] in Above(rank, s0, template)
  {
  }

  /** A walk without a count limit that starts on a stored rule with no
      rule after it processes exactly that rule: one pass on the template,
      which deletes it when deleting and asks for its successor, whose
      result, OK or not, is the walk's. */
  lemma SingleRuleWalk(rank: FlowEntry -> nat, s0: set<FlowEntry>, s: set<FlowEntry>, template: FlowEntry,
                       delete: bool, probe: Status, start: Status,
                       vs: seq<FlowEntry>, steps: seq<Step>, rc: Status)
    requires Walk(rank, s0, s, template, 0, delete, probe, start, vs, steps, rc)
    requires probe.Ok? && Above(rank, s0, template) == {}
    ensures |vs| == 1 && |steps| == 1
    ensures steps[0].cursor == template && (steps[0].deleted.Some? <==> delete)
    ensures steps[0].advanced.Some? && rc == steps[0].advanced.value.0
    ensures WalkLog(template, probe, start, vs, steps) == [StatsCall(template, probe)] + StepCalls(steps[0])
  {
    LaterAbove(rank, s0, template, vs);
    assert steps[..0] == [];
    assert Calls(steps) == StepCalls(steps[0]);
  }

  /** While the walk goes on, its cursor is a stored entry of the walked
      table under the key of the flow it stands on. */
  lemma CursorStored(rank: FlowEntry -> nat, w: Setup, s: set<FlowEntry>, p: Progress)
    requires Started(rank, w) && Looping(rank, w, s, p) && p.rc.Ok?
    ensures UniqueKeys(rank, w.s0) && s <= w.s0 && p.cur in w.s0 && rank(p.cur) == rank(p.flow)
    ensures |p.vs| == |p.steps|
  {
  }

  /** A pass on the cursor removes from the table exactly the stored entry
      under the cursor's key when its delete returns OK, and nothing
      otherwise. */
  lemma RemovedStep(rank: FlowEntry -> nat, s0: set<FlowEntry>, s: set<FlowEntry>, s': set<FlowEntry>,
                    vs: seq<FlowEntry>, steps: seq<Step>, cur: FlowEntry, flow: FlowEntry, pass: Step)
    requires UniqueKeys(rank, s0) && s <= s0 && cur in s0 && rank(cur) == rank(flow)
    requires |vs| == |steps| && s == s0 - Removed(vs, steps)
    requires s' == if pass.deleted == Some(Ok) then Without(rank, s, flow) else s
    ensures s' == s0 - Removed(vs + [cur], steps + [pass])
  {
    var vs', steps' := vs + [cur], steps + [pass];
    assert Removed(vs', steps') == Removed(vs, steps) + (if pass.deleted == Some(Ok) then {cur} else {}) by {
      forall x | x in Removed(vs', steps') ensures x in Removed(vs, steps) || (pass.deleted == Some(Ok) && x == cur) {
        var k :| 0 <= k < |vs'| && k < |steps'| && steps'[k].deleted == Some(Ok) && vs'[k] == x;
        if k < |vs| {
          assert vs[k] == x && steps[k].deleted == Some(Ok);
        }
      }
      forall x | x in Removed(vs, steps) ensures x in Removed(vs', steps') {
        var k :| 0 <= k < |vs| && k < |steps| && steps[k].deleted == Some(Ok) && vs[k] == x;
        assert vs'[k] == x && steps'[k].deleted == Some(Ok);
      }
      if pass.deleted == Some(Ok) {
        assert vs'[|vs|] == cur && steps'[|vs|] == pass;
      }
    }
    if pass.deleted == Some(Ok) {
      assert Without(rank, s, flow) == s - {cur};
    }
  }

  /** A log that held the calls of `steps` after `log0`, extended by the
      calls of one more pass, holds the calls of all the passes. */
  lemma CallsExtend(log0: seq<Call>, log: seq<Call>, steps: seq<Step>, s: Step)
    requires log == log0 + Calls(steps)
    ensures log + StepCalls(s) == log0 + Calls(steps + [s])
  {
    assert (steps + [s])[..|steps|] == steps;
  }

  /** One more pass, chained to the previous one, keeps `Stepped`. */
  lemma SteppedExtend(template: FlowEntry, count: int, delete: bool, probeOk: bool,
                      vs: seq<FlowEntry>, steps: seq<Step>, cur: FlowEntry, s: Step)
    requires Stepped(template, count, delete, probeOk, vs, steps)
    requires |steps| > 0 ==> steps[|steps| - 1].advanced == Some((Ok, cur))
    requires s.cursor == if |steps| == 0 && probeOk then template else cur
    requires s.deleted.Some? <==> delete
    requires s.advanced.Some? <==> count == 0 || |steps| + 1 < count
    ensures Stepped(template, count, delete, probeOk, vs + [cur], steps + [s])
  {
  }

  /** A walk that skips nothing from its first entry on, and has nothing of
      `s0` between the template and that entry, covers everything after the
      template up to where it stopped. */
  lemma CoveredFromTemplate(rank: FlowEntry -> nat, s0: set<FlowEntry>, s: set<FlowEntry>,
                            template: FlowEntry, vs: seq<FlowEntry>, delete: bool)
    requires Walked(rank, s0, s, vs, delete)
    requires |vs| > 0 ==> rank(template) <= rank(vs[0]) && NoneBetween(rank, s0, template, vs[0])
    ensures CoveredFrom(rank, s0, template, vs)
  {
    forall x | x in s0 && rank(template) < rank(x) <= rank(LastOf(template, vs))
      ensures x in vs
    {
      assert rank(vs[0]) <= rank(x);
    }
  }

  /** What the walk fixes once the probe (and the fallback NextGet) is done:
      the table `s0` it starts from, its parameters, the probe's result,
      the status the loop is entered with, and `first`, the stored entry
      the loop starts on. */
  datatype Setup = Setup(s0: set<FlowEntry>, template: FlowEntry, count: int, delete: bool,
                         probe: Status, start: Status, first: FlowEntry)

  /** Where the loop stands: its status `rc`, the cursor `flow`, the stored
      entry `cur` under the cursor's key, and the entries visited and the
      passes made so far. */
  datatype Progress = Progress(rc: Status, flow: FlowEntry, cur: FlowEntry, vs: seq<FlowEntry>, steps: seq<Step>)

  /** The loop starts on `first`: the template's own entry when the probe
      found it, otherwise the first entry of `s0` after the template. */
  ghost predicate Started(rank: FlowEntry -> nat, w: Setup)
  {
    && UniqueKeys(rank, w.s0)
    && (w.probe.Ok? ==> w.start.Ok?)
    && (!w.start.Ok? ==> w.first == w.template)
    && (w.start.NotFound? ==> Above(rank, w.s0, w.template) == {})
    && (w.start.Ok? ==>
          && rank(w.template) <= rank(w.first)
          && NoneBetween(rank, w.s0, w.template, w.first)
          && (rank(w.first) == rank(w.template) <==> w.probe.Ok?))
  }

  /** The loop invariant of the walk, with `s` the table now. */
  ghost predicate Looping(rank: FlowEntry -> nat, w: Setup, s: set<FlowEntry>, p: Progress)
  {
    && |p.vs| == |p.steps|
    && (p.rc.Ok? && w.count > 0 ==> |p.vs| < w.count)
    && (p.rc.Ok? && w.count < 0 ==> |p.vs| == 0)
    && (w.count > 0 ==> |p.vs| <= w.count)
    && (w.count < 0 ==> |p.vs| <= 1)
    && Stepwise(rank, w.s0, s, p.vs, w.delete)
    && (p.rc.Ok? ==> AtCursor(rank, w.s0, s, p.vs, p.cur, p.flow))
    && (p.rc.NotFound? && (w.count == 0 || |p.vs| < w.count) ==> Above(rank, w.s0, LastOf(w.template, p.vs)) == {})
    && Stepped(w.template, w.count, w.delete, w.probe.Ok?, p.vs, p.steps)
    && (|p.vs| > 0 ==> p.vs[0] == w.first && w.start.Ok?)
    && (|p.vs| == 0 ==> p.rc == w.start && p.cur == w.first)
    && (p.rc.Ok? ==> p.flow == if |p.vs| == 0 && w.probe.Ok? then w.template else p.cur)
    && (p.rc.Ok? && |p.steps| > 0 ==> p.steps[|p.steps| - 1].advanced == Some((Ok, p.cur)))
    && (!p.rc.Ok? && |p.steps| > 0 ==> p.rc == PassResult(p.steps[|p.steps| - 1]))
  }

  /** The loop is entered with the probe's outcome. */
  lemma LoopStarts(rank: FlowEntry -> nat, w: Setup, flow: FlowEntry)
    requires Started(rank, w)
    requires w.start.Ok? ==> w.first in w.s0 && rank(w.first) == rank(flow)
    requires w.start.Ok? ==> flow == if w.probe.Ok? then w.template else w.first
    ensures Looping(rank, w, w.s0, Progress(w.start, flow, w.first, [], []))
  {
  }

  /** A pass on the cursor keeps the loop invariant, with the visited entry
      appended, and leaves fewer stored entries ahead of the cursor. */
  lemma PassKeeps(rank: FlowEntry -> nat, w: Setup, s: set<FlowEntry>, s': set<FlowEntry>, p: Progress,
                  rc: Status, next: FlowEntry, pass: Step)
    requires Started(rank, w)
    requires Looping(rank, w, s, p) && p.rc.Ok?
    requires pass.cursor == p.flow && (pass.deleted.Some? <==> w.delete)
    requires pass.advanced.Some? <==> w.count == 0 || |p.vs| + 1 < w.count
    requires rc == PassResult(pass) && (pass.advanced.Some? ==> pass.advanced.value == (rc, next))
    requires s' == s || (w.delete && s' == Without(rank, s, p.flow))
    requires rc.Ok? ==> next in s' && rank(next) > rank(p.flow) && IsLeast(rank, Above(rank, s', p.flow), next)
    requires rc.NotFound? && pass.advanced.Some? ==> Above(rank, s', p.flow) == {}
    ensures Looping(rank, w, s', Progress(rc, next, next, p.vs + [p.cur], p.steps + [pass]))
    ensures rc.Ok? ==> Above(rank, s', next) < Above(rank, s, p.flow)
  {
    var vs' := p.vs + [p.cur];
    VisitStep(rank, w.s0, s, s', p.vs, p.cur, p.flow, w.delete);
    if rc.Ok? {
      NextStep(rank, w.s0, s, s', vs', p.flow, next, w.delete);
    } else if rc.NotFound? && pass.advanced.Some? {
      EndStep(rank, w.s0, s', vs', p.flow, w.delete);
    }
    SteppedExtend(w.template, w.count, w.delete, w.probe.Ok?, p.vs, p.steps, p.cur, pass);
  }

  /** When the loop stops, the walk has the outcome `Walk` describes and the
      log holds the probe, the fallback and the passes. */
  lemma WalkEnds(rank: FlowEntry -> nat, w: Setup, s: set<FlowEntry>, log: seq<Call>, log0: seq<Call>,
                 earlier: seq<Call>, p: Progress)
    requires Started(rank, w)
    requires Looping(rank, w, s, p) && !p.rc.Ok?
    requires log == log0 + Calls(p.steps)
    requires s == w.s0 - Removed(p.vs, p.steps)
    requires log0 == earlier + [StatsCall(w.template, w.probe)] +
      (if w.probe.Ok? then [] else [NextCall(w.template, w.start, w.first)])
    ensures Walk(rank, w.s0, s, w.template, w.count, w.delete, w.probe, w.start, p.vs, p.steps, p.rc)
    ensures log == earlier + WalkLog(w.template, w.probe, w.start, p.vs, p.steps)
  {
    StepwiseWalked(rank, w.s0, s, p.vs, w.delete);
    CoveredFromTemplate(rank, w.s0, s, w.template, p.vs, w.delete);
    assert FirstOf(w.template, p.vs) == w.first;
  }

  /** One pass of the loop body on the cursor `flow`: delete it when the
      command deletes, then ask for its successor unless this is the last
      pass the count allows. `pass` records the calls made. */
  method Visit(table: Table, flow: FlowEntry, delete: bool, last: bool)
    returns (rc: Status, next: FlowEntry, ghost pass: Step)
    requires table.Valid()
    modifies table
    ensures table.Valid()
    ensures pass.cursor == flow && (pass.deleted.Some? <==> delete) && (pass.advanced.Some? <==> !last)
    ensures rc == PassResult(pass) && (pass.advanced.Some? ==> pass.advanced.value == (rc, next))
    ensures table.log == old(table.log) + StepCalls(pass)
    ensures table.entries == if pass.deleted == Some(Ok) then Without(table.rank, old(table.entries), flow)
                             else old(table.entries)
    ensures rc.Ok? ==> next in table.entries && table.rank(next) > table.rank(flow)
                       && IsLeast(table.rank, Above(table.rank, table.entries, flow), next)
    ensures rc.NotFound? && pass.advanced.Some? ==> Above(table.rank, table.entries, flow) == {}
  {
    var deleted: Option<Status> := None;
    if delete {
      var d := table.Delete(flow);
      deleted := Some(d);
    }
    if !last {
      rc, next := table.NextGet(flow);
      pass := Step(flow, deleted, Some((rc, next)));
    } else {
      rc, next := NotFound, flow;
      pass := Step(flow, deleted, None);
    }
  }

  /** One pass of the list/delete loop, as `Visit` makes it. A pass that
      does not step ends the walk with NOT_FOUND, whatever the delete
      returned. The pass keeps the loop invariant for the walk `w` that
      stood at `p`, giving `p'`. */
  method Pass(table: Table, flow: FlowEntry, delete: bool, last: bool, ghost w: Setup, ghost p: Progress)
    returns (rc: Status, next: FlowEntry, ghost pass: Step, ghost p': Progress)
    requires table.Valid() && Started(table.rank, w) && w.delete == delete
    requires Looping(table.rank, w, table.entries, p) && p.rc.Ok? && p.flow == flow
    requires last <==> w.count != 0 && |p.vs| + 1 >= w.count
    modifies table
    ensures table.Valid()
    ensures pass.cursor == flow && (pass.deleted.Some? <==> delete) && (pass.advanced.Some? <==> !last)
    ensures rc == PassResult(pass) && (pass.advanced.Some? ==> pass.advanced.value == (rc, next))
    ensures table.log == old(table.log) + StepCalls(pass)
    ensures old(table.entries) == w.s0 - Removed(p.vs, p.steps) ==> table.entries == w.s0 - Removed(p'.vs, p'.steps)
    ensures p' == Progress(rc, next, next, p.vs + [p.cur], p.steps + [pass])
    ensures Looping(table.rank, w, table.entries, p')
    ensures rc.Ok? ==> Above(table.rank, table.entries, next) < Above(table.rank, old(table.entries), flow)
  {
    rc, next, pass := Visit(table, flow, delete, last);
    p' := Progress(rc, next, next, p.vs + [p.cur], p.steps + [pass]);
    PassKeeps(table.rank, w, old(table.entries), table.entries, p, rc, next, pass);
    if old(table.entries) == w.s0 - Removed(p.vs, p.steps) {
      CursorStored(table.rank, w, old(table.entries), p);
      RemovedStep(table.rank, w.s0, old(table.entries), table.entries, p.vs, p.steps, p.cur, flow, pass);
    }
  }

  /** The `while` loop of the list/delete walk `w`, entered with the
      status and cursor the probe left. It runs passes until one leaves a
      status other than OK; `seen` is the loop counter `i`, and `p` where
      the loop stopped. */
  method WalkLoop(table: Table, count: int, delete: bool, ghost w: Setup, rc0: Status, flow0: FlowEntry)
    returns (rc: Status, seen: nat, ghost p: Progress)
    requires table.Valid() && Started(table.rank, w) && table.entries == w.s0
    requires w.count == count && w.delete == delete
    requires Looping(table.rank, w, w.s0, Progress(rc0, flow0, w.first, [], []))
    modifies table
    ensures table.Valid()
    ensures !rc.Ok? && rc == p.rc && seen == |p.vs|
    ensures Looping(table.rank, w, table.entries, p)
    ensures table.log == old(table.log) + Calls(p.steps)
    ensures table.entries == w.s0 - Removed(p.vs, p.steps)
  {
    ghost var log0 := table.log;
    rc := rc0;
    var flow := flow0;
    seen := 0;
    p := Progress(rc0, flow0, w.first, [], []);
    while rc.Ok?
      invariant table.Valid()
      invariant rc == p.rc && flow == p.flow && seen == |p.vs|
      invariant Looping(table.rank, w, table.entries, p)
      invariant table.log == log0 + Calls(p.steps)
      invariant table.entries == w.s0 - Removed(p.vs, p.steps)
      decreases if rc.Ok? then 1 else 0, Above(table.rank, table.entries, flow)
    {
      seen := seen + 1;
      ghost var pass, before, steps := *, table.log, p.steps;
      rc, flow, pass, p := Pass(table, flow, delete, count != 0 && seen >= count, w, p);
      CallsExtend(log0, before, steps, pass);
    }
  }

  /** The walk's first calls: look the template up, and when it is not
      stored, step to the first stored entry after it. The loop then
      starts from the status and cursor returned. */
  method Probe(table: Table, template: FlowEntry, count: int, delete: bool)
    returns (rc: Status, flow: FlowEntry, ghost w: Setup)
    requires table.Valid()
    modifies table
    ensures table.Valid() && table.entries == old(table.entries)
    ensures w.s0 == table.entries && w.template == template && w.count == count && w.delete == delete
    ensures w.start == rc && Started(table.rank, w)
    ensures Looping(table.rank, w, w.s0, Progress(rc, flow, w.first, [], []))
    ensures table.log == old(table.log) + [StatsCall(template, w.probe)] +
      (if w.probe.Ok? then [] else [NextCall(template, w.start, w.first)])
  {
    flow := template;
    ghost var first := template;
    rc := table.StatsGet(flow);
    ghost var probe := rc;
    if rc.Ok? {
      first :| first in table.entries && table.rank(first) == table.rank(flow);
    } else {
      rc, flow := table.NextGet(flow);
      first := flow;
    }
    w := Setup(table.entries, template, count, delete, probe, rc, first);
    assert Started(table.rank, w);
    LoopStarts(table.rank, w, flow);
  }

  /** The list/delete walk. `visited` are the stored entries the walk passed,
      in order; `seen` is the loop counter `i`; `noMore` is the condition
      under which the client reports that no more entries were found. The
      ghost outputs `probe`, `start` and `steps` record the probe's result,
      the status the loop began with and the loop's passes, which together
      give the calls made. */
  method ListOrDelete(table: Table, template: FlowEntry, count: int, delete: bool, list: bool)
    returns (rc: Status, seen: nat, noMore: bool,
             ghost probe: Status, ghost start: Status, ghost visited: seq<FlowEntry>, ghost steps: seq<Step>)
    requires table.Valid()
    modifies table
    ensures table.Valid()
    ensures seen == |visited|
    ensures Walk(table.rank, old(table.entries), table.entries, template, count, delete, probe, start, visited, steps, rc)
    ensures table.log == old(table.log) + WalkLog(template, probe, start, visited, steps)
    ensures noMore <==> list && rc.NotFound? && seen < count
  {
    var flow;
    ghost var w;
    rc, flow, w := Probe(table, template, count, delete);
    probe, start := w.probe, w.start;
    ghost var log0, p := table.log, Progress(rc, flow, w.first, [], []);
    rc, seen, p := WalkLoop(table, count, delete, w, rc, flow);
    WalkEnds(table.rank, w, table.entries, table.log, log0, old(table.log), p);
    visited, steps := p.vs, p.steps;
    noMore := list && rc.NotFound? && seen < count;
  }

  // ---------------------------------------------------------------------
  // The client's run after option decoding.

  /** The entry the batch works from: the initialised entry with the client's
      idle timeout, and, unless listing, the decoded ACL fields and priority. */
  function Template(args: Arguments, init: FlowEntry): (r: FlowEntry)
    ensures r.tableId == init.tableId && r.idleTime == IdleTime
    ensures r.acl == (if args.list then init.acl else args.flow.acl)
    ensures r.priority == (if args.list then init.priority else args.flow.priority)
  {
    var f := init.(idleTime := IdleTime);
    if args.list then f else f.(acl := args.flow.acl, priority := args.flow.priority)
  }

  /** `main` after a successful initialisation, from the template
      `Template(args, init)`. Listing or deleting walks the table from the
      template and never adds; otherwise the add batch runs and makes no
      other call. `added` is the number of flows the batch stored; the ghost
      outputs describe the walk as `ListOrDelete` does. */
  method RunClient(table: Table, args: Arguments, init: FlowEntry)
    returns (rc: Status, noMore: bool, added: nat,
             ghost probe: Status, ghost start: Status, ghost visited: seq<FlowEntry>, ghost steps: seq<Step>)
    requires table.Valid()
    modifies table
    ensures table.Valid()
    ensures noMore <==> args.list && rc.NotFound? && |visited| < args.count
    ensures args.list || args.delete ==>
      && added == 0
      && Walk(table.rank, old(table.entries), table.entries, Template(args, init), args.count, args.delete,
              probe, start, visited, steps, rc)
      && table.log == old(table.log) + WalkLog(Template(args, init), probe, start, visited, steps)
    ensures !(args.list || args.delete) ==>
      && visited == [] && steps == []
      && (rc.Ok? ==> added == if args.count > 0 then args.count else 0)
      && (!rc.Ok? ==> added < args.count)
      && table.log == old(table.log) + AddLog(Template(args, init), added, rc)
      && table.entries == old(table.entries) + Elements(Batch(Template(args, init), added))
    ensures args.list || args.delete ==> table.entries <= old(table.entries)
    ensures !(args.list || args.delete) ==> old(table.entries) <= table.entries
    ensures args.list && !args.delete ==> table.entries == old(table.entries)
  {
    var template := Template(args, init);
    if args.list || args.delete {
      var seen;
      rc, seen, noMore, probe, start, visited, steps := ListOrDelete(table, template, args.count, args.delete, args.list);
      added := 0;
    } else {
      rc, added := AddBatch(table, template, args.count);
      noMore := false;
      probe, start, visited, steps := NotFound, NotFound, [], [];
    }
  }
}
