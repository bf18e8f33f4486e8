/** The three ways to store displacements: plain integers, small integers with a spill map, and
    variable-length codes.  Each stands for a plain array of numbers. */
module DisplacementTables {
  import opened EliasTable

  /** `layered_displacement_table_t`: values from `max` on are marked by `max` and kept in a map.  An
      entry of the map outlives the value it was made for. */
  class LayeredTable {
    const max: nat
    const displace: array<nat>
    var spill: map<nat, nat>
    /** The plain array of numbers this table stands for. */
    ghost var values: seq<nat>

    ghost predicate Valid()
      reads this, displace
    {
      && displace.Length == |values|
      && forall p :: 0 <= p < |values| ==>
           && displace[p] <= max
           && values[p] == if displace[p] == max then Spilled(p) else displace[p]
    }

    /** What `m_spill[pos]` gives: a missing entry is made, and is zero. */
    ghost function Spilled(pos: nat): nat
      reads this
    {
      if pos in spill then spill[pos] else 0
    }

    constructor (n: nat, max: nat)
      ensures Valid() && fresh(displace)
      ensures values == seq(n, _ => 0)
    {
      this.max := max;
      this.displace := new nat[n](_ => 0);
      this.spill := map[];
      this.values := seq(n, _ => 0);
    }

    /** `get` */
    method Get(pos: nat) returns (v: nat)
      requires Valid() && pos < |values|
      modifies this`spill
      ensures Valid() && v == values[pos]
      ensures spill == old(spill) || (displace[pos] == max && pos !in old(spill) && spill == old(spill)[pos := 0])
    {
      var tmp := displace[pos];
      if tmp == max {
        if pos !in spill {
          spill := spill[pos := 0];
        }
        v := spill[pos];
      } else {
        v := tmp;
      }
    }

    /** `set` */
    method Set(pos: nat, val: nat)
      requires Valid() && pos < |values|
      modifies this, displace
      ensures Valid() && values == old(values)[pos := val]
      ensures displace[pos] == if val < max then val else max
      ensures spill == if val < max then old(spill) else old(spill)[pos := val]
    {
      if val >= max {
        displace[pos] := max;
        spill := spill[pos := val];
      } else {
        displace[pos] := val;
      }
      values := values[pos := val];
    }
  }

  /** The choice of the table, with its configuration.  The bucket size may depend on the size of the
      table, so a rehash may change it. */
  datatype TableConfig = Naive | Layered(max: nat) | EliasGamma(bucketSize: nat -> nat)
  {
    /** The bucket size for a table of `n` positions is not zero. */
    predicate OkFor(n: nat)
    {
      EliasGamma? ==> bucketSize(n) > 0
    }
  }

  /** A displacement table of any of the three kinds. */
  class DisplacementTable {
    const config: TableConfig
    const naive: array?<nat>
    const layered: LayeredTable?
    const elias: EliasGammaTable?
    /** The plain array of numbers this table stands for. */
    ghost var values: seq<nat>
    ghost var Repr: set<object>

    ghost predicate Valid()
      reads this, Repr
      ensures Valid() ==> this in Repr
    {
      && this in Repr
      && match config
         case Naive =>
           naive != null && naive in Repr && naive[..] == values
         case Layered(_) =>
           && layered != null && layered in Repr && layered.displace in Repr
           && layered.Valid() && layered.values == values
         case EliasGamma(_) =>
           && elias != null && elias in Repr && elias.cells <= Repr && this !in elias.cells
           && elias.Valid() && elias.values == values
    }

    constructor (n: nat, config: TableConfig)
      requires config.OkFor(n)
      ensures Valid() && fresh(Repr) && this.config == config
      ensures values == seq(n, _ => 0)
    {
      this.config := config;
      this.naive, this.layered, this.elias := null, null, null;
      this.values := seq(n, _ => 0);
      match config {
        case Naive =>
          var cells := new nat[n](_ => 0);
          this.naive := cells;
          this.Repr := {this, cells};
        case Layered(max) =>
          var table := new LayeredTable(n, max);
          this.layered := table;
          this.Repr := {this, table, table.displace};
        case EliasGamma(bucketSize) =>
          var table := new EliasGammaTable(n, bucketSize(n));
          this.elias := table;
          this.Repr := {this, table} + table.cells;
      }
    }

    /** `get`; a table may keep a cursor or touch its map, but its contents stay the same. */
    method Get(pos: nat) returns (v: nat)
      requires Valid() && pos < |values|
      modifies Repr
      ensures Valid() && Repr == old(Repr) && values == old(values)
      ensures v == values[pos]
    {
      match config {
        case Naive => v := naive[pos];
        case Layered(_) => v := layered.Get(pos);
        case EliasGamma(_) => v := elias.Get(pos);
      }
    }

    /** `set` */
    method Set(pos: nat, val: nat)
      requires Valid() && pos < |values|
      modifies Repr
      ensures Valid() && fresh(Repr - old(Repr))
      ensures values == old(values)[pos := val]
    {
      match config {
        case Naive => naive[pos] := val;
        case Layered(_) => layered.Set(pos, val);
        case EliasGamma(_) =>
          elias.Set(pos, val);
          Repr := Repr + elias.cells;
      }
      values := values[pos := val];
    }
  }
}
