/** Runs of displacement tables: all three kinds answer like a plain array. */
module TableRuns {
  import opened DisplacementTables

  datatype TableOp = Get(pos: nat) | Set(pos: nat, val: nat)

  /** The last value that one of the first `i` calls set at `pos`, or zero. */
  ghost function LastSet(ops: seq<TableOp>, i: nat, pos: nat): nat
    requires i <= |ops|
  {
    if i == 0 then 0
    else if ops[i - 1].Set? && ops[i - 1].pos == pos then ops[i - 1].val
    else LastSet(ops, i - 1, pos)
  }

  /** The replies to the reading calls; the others are answered by zero. */
  ghost predicate Truthful(ops: seq<TableOp>, replies: seq<nat>)
  {
    && |replies| <= |ops|
    && forall i :: 0 <= i < |replies| ==> replies[i] == if ops[i].Get? then LastSet(ops, i, ops[i].pos) else 0
  }

  /** Any run on a new table of any kind reads the value last set. */
  method Run(n: nat, config: TableConfig, ops: seq<TableOp>) returns (replies: seq<nat>)
    requires config.OkFor(n)
    requires forall i :: 0 <= i < |ops| ==> ops[i].pos < n
    ensures |replies| == |ops| && Truthful(ops, replies)
  {
    hide DisplacementTable.Valid;
    var table := new DisplacementTable(n, config);
    replies := [];
    for i := 0 to |ops|
      invariant |replies| == i && Truthful(ops, replies)
      invariant table.Valid() && fresh(table.Repr) && |table.values| == n
      invariant forall p :: 0 <= p < n ==> table.values[p] == LastSet(ops, i, p)
    {
      var reply := 0;
      match ops[i] {
        case Get(pos) => reply := table.Get(pos);
        case Set(pos, val) => table.Set(pos, val);
      }
      replies := replies + [reply];
    }
  }

  /** Two tables of different kinds or configurations cannot be told apart. */
  method Compare(n: nat, config: TableConfig, other: TableConfig, ops: seq<TableOp>) returns (a: seq<nat>, b: seq<nat>)
    requires config.OkFor(n) && other.OkFor(n)
    requires forall i :: 0 <= i < |ops| ==> ops[i].pos < n
    ensures a == b && |a| == |ops| && Truthful(ops, a)
  {
    a := Run(n, config, ops);
    b := Run(n, other, ops);
  }
}
