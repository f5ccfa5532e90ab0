/** The OF-DPA flow table as the client reaches it through four remote calls:
    `ofdpaFlowAdd`, `ofdpaFlowStatsGet`, `ofdpaFlowNextGet` and
    `ofdpaFlowDelete`. The service itself is not part of this model; each call
    is given by contract only. Any call may fail with an error code. An entry
    is identified by its key, and the service enumerates keys in a fixed
    order, here the entry's `rank`. A log records every call and its result,
    so that the batch drivers can be specified by the calls they make. */
module FlowTable {

  import opened AclTypes

  /** `OFDPA_E_NONE`, `OFDPA_E_NOT_FOUND`, or any other error code. The
      client only ever tests a result against OK and NOT_FOUND, which are
      the two first constructors here; the code of `Failed` is carried into
      the log and never examined, so its value (even one equal to the C
      value of either) does not change anything the model states. */
  datatype Status = Ok | NotFound | Failed(code: int)

  /** One remote call, its argument and its result. */
  datatype Call =
    | AddCall(entry: FlowEntry, rc: Status)
    | StatsCall(entry: FlowEntry, rc: Status)
    | NextCall(from: FlowEntry, rc: Status, next: FlowEntry)
    | DeleteCall(entry: FlowEntry, rc: Status)

  /** The entries of `s` whose key comes after that of `e`. */
  function Above(rank: FlowEntry -> nat, s: set<FlowEntry>, e: FlowEntry): set<FlowEntry>
  {
    set x | x in s && rank(x) > rank(e)
  }

  /** `s` without the entries that have the key of `e`. */
  function Without(rank: FlowEntry -> nat, s: set<FlowEntry>, e: FlowEntry): set<FlowEntry>
  {
    set x | x in s && rank(x) != rank(e)
  }

  /** No two entries of `s` share a key. */
  predicate UniqueKeys(rank: FlowEntry -> nat, s: set<FlowEntry>)
  {
    forall x, y :: x in s && y in s && rank(x) == rank(y) ==> x == y
  }

  /** No entry of `s` comes before `m`. */
  predicate IsLeast(rank: FlowEntry -> nat, s: set<FlowEntry>, m: FlowEntry)
  {
    forall x :: x in s ==> rank(m) <= rank(x)
  }

  /** Every non-empty set of entries has one whose key comes first. */
  lemma {:induction false} LeastRankExists(rank: FlowEntry -> nat, s: set<FlowEntry>)
    requires s != {}
    ensures exists m :: m in s && IsLeast(rank, s, m)
    decreases |s|
  {
    var y :| y in s;
    var rest := s - {y};
    if rest == {} {
      assert IsLeast(rank, s, y) by {
        forall x | x in s
          ensures rank(y) <= rank(x)
        {
          assert x !in rest;
        }
      }
    } else {
      LeastRankExists(rank, rest);
      var m :| m in rest && IsLeast(rank, rest, m);
      if rank(y) < rank(m) {
        assert IsLeast(rank, s, y) by {
          forall x | x in s
            ensures rank(y) <= rank(x)
          {
            if x != y {
              assert x in rest;
            }
          }
        }
      } else {
        assert IsLeast(rank, s, m) by {
          forall x | x in s
            ensures rank(m) <= rank(x)
          {
            if x != y {
              assert x in rest;
            }
          }
        }
      }
    }
  }

  class Table {
    /** The entries the table holds. */
    var entries: set<FlowEntry>
    /** Every call made so far, in order. */
    ghost var log: seq<Call>
    /** The position of an entry's key in the enumeration order of `NextGet`. */
    const rank: FlowEntry -> nat

    /** No two stored entries share a key. */
    ghost predicate Valid()
      reads this
    {
      UniqueKeys(rank, entries)
    }

    constructor(initial: set<FlowEntry>, order: FlowEntry -> nat)
      requires UniqueKeys(order, initial)
      ensures Valid()
      ensures entries == initial && rank == order && log == []
    {
      entries := initial;
      rank := order;
      log := [];
    }

    /** `ofdpaFlowAdd`: stores the entry unless its key is already taken or
        the call fails; a failure may be any result other than OK,
        NOT_FOUND included. */
    method Add(e: FlowEntry) returns (rc: Status)
      requires Valid()
      modifies this
      ensures Valid()
      ensures rc.Ok? ==> (forall x :: x in old(entries) ==> rank(x) != rank(e)) && entries == old(entries) + {e}
      ensures !rc.Ok? ==> entries == old(entries)
      ensures log == old(log) + [AddCall(e, rc)]
    {
      var fails: bool :| true;
      if fails || exists x :: x in entries && rank(x) == rank(e) {
        var failure: Status :| !failure.Ok?;
        rc := failure;
      } else {
        entries := entries + {e};
        rc := Ok;
      }
      log := log + [AddCall(e, rc)];
    }

    /** `ofdpaFlowStatsGet`, used as a probe: OK only for a stored key,
        NOT_FOUND only for a key that is not stored. */
    method StatsGet(e: FlowEntry) returns (rc: Status)
      modifies this
      ensures entries == old(entries)
      ensures rc.Ok? ==> exists x :: x in entries && rank(x) == rank(e)
      ensures rc.NotFound? ==> forall x :: x in entries ==> rank(x) != rank(e)
      ensures log == old(log) + [StatsCall(e, rc)]
    {
      var fails: bool :| true;
      if fails {
        var code: int :| true;
        rc := Failed(code);
      } else if exists x :: x in entries && rank(x) == rank(e) {
        rc := Ok;
      } else {
        rc := NotFound;
      }
      log := log + [StatsCall(e, rc)];
    }

    /** `ofdpaFlowNextGet`: the stored entry whose key comes first after the
        key of `cur` (which need not be stored), or NOT_FOUND when there is
        none. On anything but OK the cursor is handed back unchanged. */
    method NextGet(cur: FlowEntry) returns (rc: Status, next: FlowEntry)
      modifies this
      ensures entries == old(entries)
      ensures rc.Ok? ==> next in entries && rank(next) > rank(cur)
      ensures rc.Ok? ==> IsLeast(rank, Above(rank, entries, cur), next)
      ensures rc.NotFound? ==> Above(rank, entries, cur) == {}
      ensures !rc.Ok? ==> next == cur
      ensures log == old(log) + [NextCall(cur, rc, next)]
    {
      var fails: bool :| true;
      var above := Above(rank, entries, cur);
      if fails {
        var code: int :| true;
        rc, next := Failed(code), cur;
      } else if above == {} {
        rc, next := NotFound, cur;
      } else {
        LeastRankExists(rank, above);
        next :| next in above && IsLeast(rank, above, next);
        rc := Ok;
      }
      log := log + [NextCall(cur, rc, next)];
    }

    /** `ofdpaFlowDelete`: removes the entry stored under the key of `e`. */
    method Delete(e: FlowEntry) returns (rc: Status)
      requires Valid()
      modifies this
      ensures Valid()
      ensures rc.Ok? ==> exists x :: x in old(entries) && rank(x) == rank(e)
      ensures rc.Ok? ==> entries == Without(rank, old(entries), e)
      ensures !rc.Ok? ==> entries == old(entries)
      ensures rc.NotFound? ==> forall x :: x in entries ==> rank(x) != rank(e)
      ensures log == old(log) + [DeleteCall(e, rc)]
    {
      var fails: bool :| true;
      if fails {
        var code: int :| true;
        rc := Failed(code);
      } else if exists x :: x in entries && rank(x) == rank(e) {
        entries := Without(rank, entries, e);
        rc := Ok;
      } else {
        rc := NotFound;
      }
      log := log + [DeleteCall(e, rc)];
    }
  }
}
