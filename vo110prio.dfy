/**
 * The priority rules of the MVP conflict resolver: the validation of a priority code and
 * the split of one pair's resolution vector between the two aircraft.
 */
module Vo110Prio {
  import opened Wrappers
  import opened PyBuiltins
  import opened Geometry

  /** The accepted priority codes (`options`). */
  const PrioCodes: seq<string> := ["FF1", "FF2", "FF3", "LAY1", "LAY2"]

  /**
   * What `setprio` does: with no flag it shows the usage text; an unknown code is
   * rejected; otherwise flag and code go to the generic resolver's setter unchanged.
   */
  datatype SetPrioOutcome = ShowUsage | Rejected | Delegated(flag: bool, code: string)

  function SetPrio(flag: Option<bool>, priocode: string): (r: SetPrioOutcome)
    ensures flag.None? <==> r.ShowUsage?
    ensures flag.Some? ==> (r.Rejected? <==> priocode !in PrioCodes)
    ensures r.Delegated? ==> r.flag == flag.value && r.code == priocode && r.code in PrioCodes
  {
    match flag
    case None => ShowUsage
    case Some(f) =>
      if priocode !in PrioCodes then Rejected else Delegated(f, priocode)
  }

  /** Switching priority on without naming a code (the default `''`) is rejected, not defaulted. */
  lemma SetPrioNeedsCode(f: bool)
    ensures SetPrio(Some(f), "") == Rejected
    ensures SetPrio(Some(f), "ff1") == Rejected
    ensures SetPrio(Some(f), "LAY2") == Delegated(f, "LAY2")
  {
  }

  /** `abs(vs) < 0.1`: the aircraft is cruising. */
  predicate Cruising(vs: real) {
    Abs(vs) < 0.1
  }

  /** `abs(vs) > 0.1`: the aircraft is climbing or descending. */
  predicate Maneuvering(vs: real) {
    Abs(vs) > 0.1
  }

  /**
   * The result of `applyprio`: the new deltas of both aircraft, and the pair's vector as
   * `applyprio` leaves it after writing its vertical component in place.
   */
  datatype PrioSplit = PrioSplit(dv1: Vec3, dv2: Vec3, mvp: Vec3)

  function HalveZ(v: Vec3): Vec3 {
    Vec3(v.x, v.y, v.z / 2.0)
  }

  function ZeroZ(v: Vec3): Vec3 {
    Vec3(v.x, v.y, 0.0)
  }

  /** Aircraft 1 gives way by `mvp`, aircraft 2 by its opposite. */
  function BothMove(dv1: Vec3, dv2: Vec3, mvp: Vec3): PrioSplit {
    PrioSplit(Sub(dv1, mvp), Add(dv2, mvp), mvp)
  }

  function OnlyFirstMoves(dv1: Vec3, dv2: Vec3, mvp: Vec3): PrioSplit {
    PrioSplit(Sub(dv1, mvp), dv2, mvp)
  }

  function OnlySecondMoves(dv1: Vec3, dv2: Vec3, mvp: Vec3): PrioSplit {
    PrioSplit(dv1, Add(dv2, mvp), mvp)
  }

  /**
   * `applyprio(dv_mvp, dv1, dv2, vs1, vs2)` under `priocode`. FF2 and LAY1 let the
   * maneuvering aircraft solve a conflict with a cruising one, FF3 and LAY2 the cruising
   * one; the layer codes solve horizontally only. Any other code changes nothing. Each
   * aircraft either keeps its delta or moves by exactly the written-back vector, one way
   * for aircraft 1 and the other for aircraft 2, and the horizontal part of that vector
   * is never changed.
   */
  function ApplyPrio(priocode: string, dvMvp: Vec3, dv1: Vec3, dv2: Vec3, vs1: real, vs2: real): (r: PrioSplit)
    ensures r.dv1 == dv1 || r.dv1 == Sub(dv1, r.mvp)
    ensures r.dv2 == dv2 || r.dv2 == Add(dv2, r.mvp)
    ensures r.mvp.x == dvMvp.x && r.mvp.y == dvMvp.y
    ensures priocode !in PrioCodes ==> r == PrioSplit(dv1, dv2, dvMvp)
  {
    var firstCruises := Cruising(vs1) && Maneuvering(vs2);
    var secondCruises := Cruising(vs2) && Maneuvering(vs1);
    if priocode == "FF1" then
      BothMove(dv1, dv2, HalveZ(dvMvp))
    else if priocode == "FF2" then
      var m := HalveZ(dvMvp);
      if firstCruises then OnlySecondMoves(dv1, dv2, m)
      else if secondCruises then OnlyFirstMoves(dv1, dv2, m)
      else BothMove(dv1, dv2, m)
    else if priocode == "FF3" then
      if firstCruises then OnlyFirstMoves(dv1, dv2, ZeroZ(dvMvp))
      else if secondCruises then OnlySecondMoves(dv1, dv2, ZeroZ(dvMvp))
      else BothMove(dv1, dv2, HalveZ(dvMvp))
    else if priocode == "LAY1" then
      var m := ZeroZ(dvMvp);
      if firstCruises then OnlySecondMoves(dv1, dv2, m)
      else if secondCruises then OnlyFirstMoves(dv1, dv2, m)
      else BothMove(dv1, dv2, m)
    else if priocode == "LAY2" then
      var m := ZeroZ(dvMvp);
      if firstCruises then OnlyFirstMoves(dv1, dv2, m)
      else if secondCruises then OnlySecondMoves(dv1, dv2, m)
      else BothMove(dv1, dv2, m)
    else
      PrioSplit(dv1, dv2, dvMvp)
  }

  /**
   * The vertical component written back: halved under FF1 and FF2, zeroed under LAY1 and
   * LAY2, zeroed by FF3 when one aircraft cruises and the other maneuvers and halved
   * otherwise.
   */
  lemma ApplyPrioVertical(priocode: string, dvMvp: Vec3, dv1: Vec3, dv2: Vec3, vs1: real, vs2: real)
    ensures var r := ApplyPrio(priocode, dvMvp, dv1, dv2, vs1, vs2);
      var oneSided := (Cruising(vs1) && Maneuvering(vs2)) || (Cruising(vs2) && Maneuvering(vs1));
      (priocode == "FF1" || priocode == "FF2" ==> r.mvp.z == dvMvp.z / 2.0) &&
      (priocode == "LAY1" || priocode == "LAY2" ==> r.mvp.z == 0.0) &&
      (priocode == "FF3" ==> r.mvp.z == if oneSided then 0.0 else dvMvp.z / 2.0)
  {
  }

  /**
   * FF2 and LAY1: when one aircraft cruises and the other maneuvers, only the
   * maneuvering one moves; in every other case, `|vs|` of exactly 0.1 included, both do.
   */
  lemma CruisingHasPriority(priocode: string, dvMvp: Vec3, dv1: Vec3, dv2: Vec3, vs1: real, vs2: real)
    requires priocode == "FF2" || priocode == "LAY1"
    ensures var r := ApplyPrio(priocode, dvMvp, dv1, dv2, vs1, vs2);
      if Cruising(vs1) && Maneuvering(vs2) then r == OnlySecondMoves(dv1, dv2, r.mvp)
      else if Cruising(vs2) && Maneuvering(vs1) then r == OnlyFirstMoves(dv1, dv2, r.mvp)
      else r == BothMove(dv1, dv2, r.mvp)
  {
  }

  /** FF3 and LAY2 swap the roles: the cruising aircraft moves. */
  lemma ManeuveringHasPriority(priocode: string, dvMvp: Vec3, dv1: Vec3, dv2: Vec3, vs1: real, vs2: real)
    requires priocode == "FF3" || priocode == "LAY2"
    ensures var r := ApplyPrio(priocode, dvMvp, dv1, dv2, vs1, vs2);
      if Cruising(vs1) && Maneuvering(vs2) then r == OnlyFirstMoves(dv1, dv2, r.mvp)
      else if Cruising(vs2) && Maneuvering(vs1) then r == OnlySecondMoves(dv1, dv2, r.mvp)
      else r == BothMove(dv1, dv2, r.mvp)
  {
  }

  /** At `|vs| == 0.1` an aircraft is neither cruising nor maneuvering, so under FF2 both move. */
  lemma BoundarySpeedBothMove(dvMvp: Vec3, dv1: Vec3, dv2: Vec3, vs2: real)
    ensures ApplyPrio("FF2", dvMvp, dv1, dv2, 0.1, vs2) == BothMove(dv1, dv2, HalveZ(dvMvp))
  {
  }

  lemma MirrorMoves(dv1: Vec3, dv2: Vec3, m: Vec3)
    ensures BothMove(dv2, dv1, Neg(m)) == PrioSplit(Add(dv2, m), Sub(dv1, m), Neg(m))
    ensures OnlyFirstMoves(dv2, dv1, Neg(m)) == PrioSplit(Add(dv2, m), dv1, Neg(m))
    ensures OnlySecondMoves(dv2, dv1, Neg(m)) == PrioSplit(dv2, Sub(dv1, m), Neg(m))
  {
  }

  /**
   * Exchanging the two aircraft (and so negating the pair's vector) exchanges the two
   * results: the rules favour no aircraft by its position in the pair.
   */
  lemma ApplyPrioMirror(priocode: string, dvMvp: Vec3, dv1: Vec3, dv2: Vec3, vs1: real, vs2: real)
    ensures var r := ApplyPrio(priocode, dvMvp, dv1, dv2, vs1, vs2);
      ApplyPrio(priocode, Neg(dvMvp), dv2, dv1, vs2, vs1) == PrioSplit(r.dv2, r.dv1, Neg(r.mvp))
  {
    assert HalveZ(Neg(dvMvp)) == Neg(HalveZ(dvMvp));
    assert ZeroZ(Neg(dvMvp)) == Neg(ZeroZ(dvMvp));
    if priocode == "FF1" || priocode == "FF2" {
      MirrorMoves(dv1, dv2, HalveZ(dvMvp));
    } else if priocode == "FF3" {
      MirrorMoves(dv1, dv2, HalveZ(dvMvp));
      MirrorMoves(dv1, dv2, ZeroZ(dvMvp));
    } else if priocode == "LAY1" || priocode == "LAY2" {
      MirrorMoves(dv1, dv2, ZeroZ(dvMvp));
    }
  }

  /**
   * FF1 ignores the vertical speeds: aircraft 1 moves by the pair's vector with its
   * vertical part halved and aircraft 2 by its opposite.
   */
  lemma ApplyPrioFF1(dvMvp: Vec3, dv1: Vec3, dv2: Vec3, vs1: real, vs2: real)
    ensures var r := ApplyPrio("FF1", dvMvp, dv1, dv2, vs1, vs2);
      r.dv1 == Vec3(dv1.x - dvMvp.x, dv1.y - dvMvp.y, dv1.z - dvMvp.z / 2.0) &&
      r.dv2 == Vec3(dv2.x + dvMvp.x, dv2.y + dvMvp.y, dv2.z + dvMvp.z / 2.0)
  {
  }
}
