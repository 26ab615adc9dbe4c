/**
 * Groups of mutually exclusive command-line flags, as both settings
 * validators treat them: at most one flag of a group may be set; the set
 * flag picks the group's value, and no flag picks the default.
 */
module FlagGroups {
  import opened Wrappers

  /** How many of `flags` are set. */
  function CountTrue(flags: seq<bool>): (n: nat)
    ensures n <= |flags|
    ensures n == 0 <==> forall i :: 0 <= i < |flags| ==> !flags[i]
  {
    if flags == [] then 0 else (if flags[0] then 1 else 0) + CountTrue(flags[1..])
  }

  /** The value paired with the first set flag, or `default` when none is set. */
  function Chosen<T>(flags: seq<bool>, values: seq<T>, default: T): T
    requires |values| == |flags|
  {
    if flags == [] then default
    else if flags[0] then values[0]
    else Chosen(flags[1..], values[1..], default)
  }

  /** When at most one flag is set, the choice does not depend on the order of the group. */
  lemma {:induction false} ChosenIsTheSetFlag<T>(flags: seq<bool>, values: seq<T>, default: T)
    requires |values| == |flags|
    requires CountTrue(flags) <= 1
    ensures CountTrue(flags) == 0 ==> Chosen(flags, values, default) == default
    ensures forall i :: 0 <= i < |flags| && flags[i] ==> Chosen(flags, values, default) == values[i]
  {
    if flags != [] {
      ChosenIsTheSetFlag(flags[1..], values[1..], default);
      if flags[0] {
        assert CountTrue(flags[1..]) == 0;
        assert forall i :: 1 <= i < |flags| ==> !flags[i] by {
          forall i | 1 <= i < |flags|
            ensures !flags[i]
          {
            assert flags[i] == flags[1..][i - 1];
          }
        }
      } else {
        forall i | 0 <= i < |flags| && flags[i]
          ensures Chosen(flags, values, default) == values[i]
        {
          assert flags[i] == flags[1..][i - 1] && values[i] == values[1..][i - 1];
        }
      }
    }
  }

  /**
   * Reference meaning of a group: two or more set flags are a conflict,
   * otherwise the group's value is the one its set flag (if any) names.
   */
  function Exclusive<T, E>(flags: seq<bool>, values: seq<T>, default: T, conflict: E): Result<T, E>
    requires |values| == |flags|
  {
    if CountTrue(flags) >= 2 then Failure(conflict) else Success(Chosen(flags, values, default))
  }

  function Bit(b: bool): nat
  {
    if b then 1 else 0
  }

  lemma Count2(x: bool, y: bool)
    ensures CountTrue([x, y]) == Bit(x) + Bit(y)
  {
    assert [x, y][1..] == [y];
    assert [y][1..] == [];
  }

  lemma Count3(x: bool, y: bool, z: bool)
    ensures CountTrue([x, y, z]) == Bit(x) + Bit(y) + Bit(z)
  {
    assert [x, y, z][1..] == [y, z];
    Count2(y, z);
  }

  lemma Count4(w: bool, x: bool, y: bool, z: bool)
    ensures CountTrue([w, x, y, z]) == Bit(w) + Bit(x) + Bit(y) + Bit(z)
  {
    assert [w, x, y, z][1..] == [x, y, z];
    Count3(x, y, z);
  }

  /** A group of three flags, spelled out. */
  lemma Exclusive3<T, E>(x: bool, y: bool, z: bool, vx: T, vy: T, vz: T, default: T, conflict: E)
    ensures Exclusive([x, y, z], [vx, vy, vz], default, conflict)
      == if Bit(x) + Bit(y) + Bit(z) >= 2 then Failure(conflict)
         else Success(if x then vx else if y then vy else if z then vz else default)
  {
    Count3(x, y, z);
    Chosen2(y, z, vy, vz, default);
    assert [x, y, z][1..] == [y, z] && [vx, vy, vz][1..] == [vy, vz];
  }

  /** A group of four flags, spelled out. */
  lemma Exclusive4<T, E>(w: bool, x: bool, y: bool, z: bool, vw: T, vx: T, vy: T, vz: T, default: T, conflict: E)
    ensures Exclusive([w, x, y, z], [vw, vx, vy, vz], default, conflict)
      == if Bit(w) + Bit(x) + Bit(y) + Bit(z) >= 2 then Failure(conflict)
         else Success(if w then vw else if x then vx else if y then vy else if z then vz else default)
  {
    Count4(w, x, y, z);
    Chosen2(y, z, vy, vz, default);
    assert [x, y, z][1..] == [y, z] && [vx, vy, vz][1..] == [vy, vz];
    assert [w, x, y, z][1..] == [x, y, z] && [vw, vx, vy, vz][1..] == [vx, vy, vz];
    assert Chosen([x, y, z], [vx, vy, vz], default) == if x then vx else if y then vy else if z then vz else default;
  }

  /** A group of two flags, spelled out. */
  lemma Exclusive2<T, E>(x: bool, y: bool, vx: T, vy: T, default: T, conflict: E)
    ensures Exclusive([x, y], [vx, vy], default, conflict)
      == if x && y then Failure(conflict) else Success(if x then vx else if y then vy else default)
  {
    Count2(x, y);
    Chosen2(x, y, vx, vy, default);
  }

  lemma Chosen2<T>(x: bool, y: bool, vx: T, vy: T, default: T)
    ensures Chosen([x, y], [vx, vy], default) == if x then vx else if y then vy else default
  {
    assert [x, y][1..] == [y] && [vx, vy][1..] == [vy];
    assert [y][1..] == [] && [vy][1..] == [];
    assert Chosen([y], [vy], default) == if y then vy else Chosen([], [], default);
  }
}
