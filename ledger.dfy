/**
 * The score ledger of the engine as a value: the ordered vector of
 * `(id, value, reason)` entries and the specification of every operation the
 * engine performs on it. Class `ScoringEngine.Engine` holds one of these in a field
 * and its methods are proved against the functions below.
 */
module Ledger {
  import opened Wrappers
  import opened Ints

  datatype ScoreEntry = ScoreEntry(id: u64, value: i32, reason: string)

  /** At most one entry per id. */
  ghost predicate DistinctIds(s: seq<ScoreEntry>) {
    forall i, j :: 0 <= i < j < |s| ==> s[i].id != s[j].id
  }

  /** The position of the first entry carrying `id`, if any. */
  function IndexOf(s: seq<ScoreEntry>, id: u64): (r: Option<nat>)
    ensures r.Some? ==> r.value < |s| && s[r.value].id == id
    ensures r.Some? ==> forall k :: 0 <= k < r.value ==> s[k].id != id
    ensures r.None? <==> forall k :: 0 <= k < |s| ==> s[k].id != id
  {
    if s == [] then None
    else if s[0].id == id then Some(0)
    else match IndexOf(s[1..], id)
      case None => None
      case Some(k) => Some(k + 1)
  }

  /** An index holding `id` with no earlier index holding it is the one `IndexOf` finds. */
  lemma IndexOfAt(s: seq<ScoreEntry>, id: u64, k: nat)
    requires k < |s| && s[k].id == id
    requires forall j :: 0 <= j < k ==> s[j].id != id
    ensures IndexOf(s, id) == Some(k)
  {
  }

  /** In a ledger with distinct ids, the entry `IndexOf` finds is the only one with its id. */
  lemma DistinctOnce(s: seq<ScoreEntry>, id: u64)
    requires DistinctIds(s) && IndexOf(s, id).Some?
    ensures forall j :: 0 <= j < |s| && s[j].id == id ==> j == IndexOf(s, id).value
  {
  }

  /**
   * The ledger after `add_score(id, value, reason)`: the first entry with
   * `id` gets the new value and reason in place, or a new entry is appended.
   */
  function Upserted(s: seq<ScoreEntry>, id: u64, value: i32, reason: string): seq<ScoreEntry> {
    match IndexOf(s, id)
    case Some(k) => s[k := ScoreEntry(id, value, reason)]
    case None => s + [ScoreEntry(id, value, reason)]
  }

  /**
   * What `add_score` promises: afterwards the id is found with the new value
   * and reason, at its old position when it was present and at the end when
   * it was not; every other entry keeps its place and contents, and ids stay
   * pairwise distinct.
   */
  lemma UpsertedSpec(s: seq<ScoreEntry>, id: u64, value: i32, reason: string)
    ensures var r := Upserted(s, id, value, reason);
      && |r| == (if IndexOf(s, id).Some? then |s| else |s| + 1)
      && IndexOf(r, id).Some? && r[IndexOf(r, id).value] == ScoreEntry(id, value, reason)
      && (IndexOf(s, id).Some? ==> IndexOf(r, id) == IndexOf(s, id))
      && (IndexOf(s, id).None? ==> IndexOf(r, id) == Some(|s|))
      && (forall k :: 0 <= k < |s| ==> r[k].id == s[k].id)
      && (forall k :: 0 <= k < |s| && Some(k) != IndexOf(s, id) ==> r[k] == s[k])
      && (DistinctIds(s) ==> DistinctIds(r))
  {
    var r := Upserted(s, id, value, reason);
    match IndexOf(s, id)
    case Some(k) => IndexOfAt(r, id, k);
    case None => IndexOfAt(r, id, |s|);
  }

  /** `add_score` for one id leaves where every other id is found, and its entry, as they were. */
  lemma UpsertOther(s: seq<ScoreEntry>, id: u64, value: i32, reason: string, other: u64)
    requires other != id
    ensures var r := Upserted(s, id, value, reason);
      IndexOf(r, other) == IndexOf(s, other) &&
      (IndexOf(s, other).Some? ==> r[IndexOf(s, other).value] == s[IndexOf(s, other).value])
  {
    var r := Upserted(s, id, value, reason);
    UpsertedSpec(s, id, value, reason);
    match IndexOf(s, other)
    case Some(k) => IndexOfAt(r, other, k);
    case None =>
  }

  /**
   * The ledger after `remove_score(id)`: the first entry with `id` is gone
   * and every other entry keeps its relative order.
   */
  function Removed(s: seq<ScoreEntry>, id: u64): seq<ScoreEntry> {
    match IndexOf(s, id)
    case None => s
    case Some(k) => s[..k] + s[k + 1..]
  }

  /**
   * What `remove_score` promises: nothing changes when the id is absent;
   * otherwise exactly the first entry with the id is gone, the others keep
   * their relative order, and with distinct ids the id is no longer found.
   */
  lemma RemovedSpec(s: seq<ScoreEntry>, id: u64)
    ensures var r := Removed(s, id);
      && (IndexOf(s, id).None? ==> r == s)
      && (IndexOf(s, id).Some? ==> |r| == |s| - 1)
      && (IndexOf(s, id).Some? ==>
            forall k :: 0 <= k < |r| ==> r[k] == if k < IndexOf(s, id).value then s[k] else s[k + 1])
      && (DistinctIds(s) ==> DistinctIds(r) && IndexOf(r, id).None?)
  {
    match IndexOf(s, id)
    case None =>
    case Some(k) =>
      if DistinctIds(s) {
        DropKeepsDistinct(s, k);
      }
  }

  /** Dropping the entry at `k` from a ledger with distinct ids leaves distinct ids, none of them its id. */
  lemma DropKeepsDistinct(s: seq<ScoreEntry>, k: nat)
    requires k < |s| && DistinctIds(s)
    ensures DistinctIds(s[..k] + s[k + 1..])
    ensures IndexOf(s[..k] + s[k + 1..], s[k].id).None?
  {
    var r := s[..k] + s[k + 1..];
    forall i, j | 0 <= i < j < |r|
      ensures r[i].id != r[j].id
    {
      var i' := if i < k then i else i + 1;
      var j' := if j < k then j else j + 1;
      assert r[i] == s[i'] && r[j] == s[j'] && i' < j';
    }
    forall j | 0 <= j < |r|
      ensures r[j].id != s[k].id
    {
      var j' := if j < k then j else j + 1;
      assert r[j] == s[j'] && j' != k;
    }
  }

  /** The sum of all values, folded from the front as `calc_total_score` does. */
  function Sum(s: seq<ScoreEntry>): int {
    if s == [] then 0 else Sum(s[..|s| - 1]) + s[|s| - 1].value
  }

  lemma {:induction false} SumAppend(a: seq<ScoreEntry>, b: seq<ScoreEntry>)
    ensures Sum(a + b) == Sum(a) + Sum(b)
  {
    if b == [] {
      assert a + b == a;
    } else {
      var b' := b[..|b| - 1];
      assert (a + b)[..|a + b| - 1] == a + b';
      SumAppend(a, b');
    }
  }

  /** Replacing one entry changes the total by the difference of the two values. */
  lemma SumReplace(s: seq<ScoreEntry>, k: nat, e: ScoreEntry)
    requires k < |s|
    ensures Sum(s[k := e]) == Sum(s) - s[k].value + e.value
  {
    var front, back := s[..k], s[k + 1..];
    assert s == front + [s[k]] + back;
    assert s[k := e] == front + [e] + back;
    SumAppend(front + [s[k]], back);
    SumAppend(front, [s[k]]);
    SumAppend(front + [e], back);
    SumAppend(front, [e]);
  }

  /** Dropping one entry lowers the total by that entry's value. */
  lemma SumDrop(s: seq<ScoreEntry>, k: nat)
    requires k < |s|
    ensures Sum(s[..k] + s[k + 1..]) == Sum(s) - s[k].value
  {
    var front, e, back := s[..k], s[k], s[k + 1..];
    assert s[k..] == [e] + back;
    assert s == front + s[k..];
    assert s == front + [e] + back;
    SumAppend(front + [e], back);
    SumAppend(front, [e]);
    SumAppend(front, back);
  }

  /** `add_score` changes the total by the difference between the new value and the one it overwrites. */
  lemma UpsertTotal(s: seq<ScoreEntry>, id: u64, value: i32, reason: string)
    ensures IndexOf(s, id).Some? ==>
      Sum(Upserted(s, id, value, reason)) == Sum(s) - s[IndexOf(s, id).value].value + value
    ensures IndexOf(s, id).None? ==> Sum(Upserted(s, id, value, reason)) == Sum(s) + value
  {
    match IndexOf(s, id)
    case Some(k) => SumReplace(s, k, ScoreEntry(id, value, reason));
    case None => SumAppend(s, [ScoreEntry(id, value, reason)]);
  }

  /** A successful `remove_score` lowers the total by the removed entry's value. */
  lemma RemoveTotal(s: seq<ScoreEntry>, id: u64)
    ensures IndexOf(s, id).Some? ==> Sum(Removed(s, id)) == Sum(s) - s[IndexOf(s, id).value].value
    ensures IndexOf(s, id).None? ==> Sum(Removed(s, id)) == Sum(s)
  {
    if IndexOf(s, id).Some? {
      SumDrop(s, IndexOf(s, id).value);
    }
  }

  /** A call into the ledger's public interface: `add_score` or `remove_score`. */
  datatype Op = Upsert(id: u64, value: i32, reason: string) | Remove(id: u64)

  function Apply(s: seq<ScoreEntry>, op: Op): seq<ScoreEntry> {
    match op
    case Upsert(id, value, reason) => Upserted(s, id, value, reason)
    case Remove(id) => Removed(s, id)
  }

  /** The ledger after a sequence of calls, the first call applied first. */
  function Replay(s: seq<ScoreEntry>, ops: seq<Op>): seq<ScoreEntry> {
    if ops == [] then s else Apply(Replay(s, ops[..|ops| - 1]), ops[|ops| - 1])
  }

  lemma ReplayStep(s: seq<ScoreEntry>, ops: seq<Op>, op: Op)
    ensures Replay(s, ops + [op]) == Apply(Replay(s, ops), op)
  {
    assert (ops + [op])[..|ops|] == ops;
  }

  lemma {:induction false} ReplayAppend(s: seq<ScoreEntry>, a: seq<Op>, b: seq<Op>)
    ensures Replay(s, a + b) == Replay(Replay(s, a), b)
  {
    if b == [] {
      assert a + b == a;
    } else {
      var b' := b[..|b| - 1];
      assert (a + b)[..|a + b| - 1] == a + b';
      ReplayAppend(s, a, b');
    }
  }

  /** No sequence of ledger calls ever gives one id two entries. */
  lemma {:induction false} ReplayKeepsDistinct(s: seq<ScoreEntry>, ops: seq<Op>)
    requires DistinctIds(s)
    ensures DistinctIds(Replay(s, ops))
  {
    if ops != [] {
      var prefix := Replay(s, ops[..|ops| - 1]);
      ReplayKeepsDistinct(s, ops[..|ops| - 1]);
      match ops[|ops| - 1]
      case Upsert(id, value, reason) => UpsertedSpec(prefix, id, value, reason);
      case Remove(id) => RemovedSpec(prefix, id);
    }
  }

  predicate AllUpserts(ops: seq<Op>) {
    forall k :: 0 <= k < |ops| ==> ops[k].Upsert?
  }

  /** The entry the last `add_score` for `id` in `ops` writes, if there is one. */
  function LastWrite(ops: seq<Op>, id: u64): Option<ScoreEntry> {
    if ops == [] then None
    else
      var op := ops[|ops| - 1];
      if op.Upsert? && op.id == id then Some(ScoreEntry(op.id, op.value, op.reason))
      else LastWrite(ops[..|ops| - 1], id)
  }

  /**
   * After any sequence of `add_score` calls on a ledger with distinct ids,
   * an id that was written occurs exactly once and carries its last-written
   * value and reason; an id that was not written is found where it was,
   * unchanged.
   */
  lemma {:induction false} LastWriteWins(s: seq<ScoreEntry>, ops: seq<Op>, id: u64)
    requires DistinctIds(s) && AllUpserts(ops)
    ensures var r := Replay(s, ops);
      && DistinctIds(r)
      && (LastWrite(ops, id).Some? ==>
            IndexOf(r, id).Some? && r[IndexOf(r, id).value] == LastWrite(ops, id).value)
      && (LastWrite(ops, id).None? ==>
            IndexOf(r, id) == IndexOf(s, id) &&
            (IndexOf(s, id).Some? ==> r[IndexOf(s, id).value] == s[IndexOf(s, id).value]))
      && (forall j :: 0 <= j < |r| && r[j].id == id ==> IndexOf(r, id) == Some(j))
  {
    var r := Replay(s, ops);
    ReplayKeepsDistinct(s, ops);
    if ops != [] {
      var prefix := ops[..|ops| - 1];
      var op := ops[|ops| - 1];
      assert AllUpserts(prefix);
      LastWriteWins(s, prefix, id);
      UpsertedSpec(Replay(s, prefix), op.id, op.value, op.reason);
      if op.id != id {
        UpsertOther(Replay(s, prefix), op.id, op.value, op.reason, id);
      }
    }
    if IndexOf(r, id).Some? {
      DistinctOnce(r, id);
    }
  }

  /**
   * After any sequence of `add_score` calls no entry moves: every entry keeps
   * its position and id, and the ledger only grows at the end.
   */
  lemma {:induction false} UpsertsKeepPositions(s: seq<ScoreEntry>, ops: seq<Op>)
    requires AllUpserts(ops)
    ensures |Replay(s, ops)| >= |s|
    ensures forall k :: 0 <= k < |s| ==> Replay(s, ops)[k].id == s[k].id
  {
    if ops != [] {
      var op := ops[|ops| - 1];
      UpsertsKeepPositions(s, ops[..|ops| - 1]);
      UpsertedSpec(Replay(s, ops[..|ops| - 1]), op.id, op.value, op.reason);
    }
  }
}
