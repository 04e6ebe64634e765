/**
 * `resolve` of the MVP conflict resolver: the per-pair resolutions are summed into one
 * velocity change per aircraft together with the shortest time to solve vertically, and
 * each aircraft's change is then turned into track, ground speed, vertical speed and
 * altitude commands, limited to the directions the settings allow and capped by the
 * aircraft's performance envelope. The per-pair resolutions themselves are inputs.
 */
module Vo110Resolve {
  import opened PyBuiltins
  import opened Geometry
  import opened Vo110Prio

  /** One conflict pair: ownship and intruder index, and the pair's resolution and time to solve. */
  datatype PairResult = PairResult(idx1: nat, idx2: nat, dvMvp: Vec3, tsolV: real)

  /** The resolver switches. */
  datatype ResoConfig = ResoConfig(
    swprio: bool, priocode: string,
    swresohoriz: bool, swresospd: bool, swresohdg: bool, swresovert: bool)

  /**
   * What the pair loop reads besides the pairs: the vertical speeds of ownship and
   * intruder traffic, and the aircraft nobody avoids and the aircraft that do not resolve.
   */
  datatype PairContext = PairContext(ownVs: seq<real>, intrVs: seq<real>, noreso: seq<bool>, resooff: seq<bool>)

  /** The time to solve vertically of an aircraft in no conflict. */
  const NoConflictTime: real := 1000000000.0

  /** The summed velocity change and the time to solve vertically, per aircraft. */
  datatype ResoState = ResoState(dv: seq<Vec3>, tsol: seq<real>)

  predicate ContextFits(ctx: PairContext, n: nat) {
    |ctx.ownVs| == n && |ctx.intrVs| == n && |ctx.noreso| == n && |ctx.resooff| == n
  }

  predicate StateFits(st: ResoState, n: nat) {
    |st.dv| == n && |st.tsol| == n
  }

  predicate PairFits(pr: PairResult, n: nat) {
    pr.idx1 < n && pr.idx2 < n
  }

  predicate PairsFit(pairs: seq<PairResult>, n: nat) {
    forall j :: 0 <= j < |pairs| ==> PairFits(pairs[j], n)
  }

  function Init(n: nat): (st: ResoState)
    ensures StateFits(st, n)
    ensures forall i :: 0 <= i < n ==> st.dv[i] == Zero && st.tsol[i] == NoConflictTime
  {
    ResoState(seq(n, _ => Zero), seq(n, _ => NoConflictTime))
  }

  /**
   * How one pair splits: through the priority rules when they are on, otherwise the
   * cooperative split in which the ownship takes the pair's vector with its vertical
   * part halved.
   */
  function Split(row: Vec3, other: Vec3, pr: PairResult, cfg: ResoConfig, ctx: PairContext): PrioSplit
    requires ContextFits(ctx, |ctx.ownVs|) && PairFits(pr, |ctx.ownVs|)
  {
    if cfg.swprio then ApplyPrio(cfg.priocode, pr.dvMvp, row, other, ctx.ownVs[pr.idx1], ctx.intrVs[pr.idx2])
    else PrioSplit(Sub(row, HalveZ(pr.dvMvp)), other, HalveZ(pr.dvMvp))
  }

  /**
   * Either way the ownship keeps its row or gives way by the vector written back, whose
   * horizontal part is the pair's; without priority it always gives way, by the pair's
   * vector with its vertical part halved.
   */
  lemma SplitGivesWay(row: Vec3, other: Vec3, pr: PairResult, cfg: ResoConfig, ctx: PairContext)
    requires ContextFits(ctx, |ctx.ownVs|) && PairFits(pr, |ctx.ownVs|)
    ensures var r := Split(row, other, pr, cfg, ctx);
      (r.dv1 == row || r.dv1 == Sub(row, r.mvp)) &&
      r.mvp.x == pr.dvMvp.x && r.mvp.y == pr.dvMvp.y &&
      (!cfg.swprio ==> r.dv1 == Sub(row, r.mvp) && r.mvp.z == pr.dvMvp.z / 2.0)
  {
  }

  /**
   * The ownship's new row after one pair: split, then the pair's vector added back when
   * the intruder is one nobody avoids, then cleared when the ownship does not resolve.
   */
  function NewRow(row: Vec3, other: Vec3, pr: PairResult, cfg: ResoConfig, ctx: PairContext): (r: Vec3)
    requires ContextFits(ctx, |ctx.ownVs|) && PairFits(pr, |ctx.ownVs|)
    ensures ctx.resooff[pr.idx1] ==> r == Zero
  {
    var s := Split(row, other, pr, cfg, ctx);
    var added := if ctx.noreso[pr.idx2] then Add(s.dv1, s.mvp) else s.dv1;
    if ctx.resooff[pr.idx1] then Zero else added
  }

  /** One iteration of the pair loop. It touches the ownship's row and time and nothing else. */
  function Step(st: ResoState, pr: PairResult, cfg: ResoConfig, ctx: PairContext): (r: ResoState)
    requires ContextFits(ctx, |st.dv|) && StateFits(st, |st.dv|) && PairFits(pr, |st.dv|)
    ensures StateFits(r, |st.dv|)
    ensures forall i :: 0 <= i < |st.dv| && i != pr.idx1 ==> r.dv[i] == st.dv[i] && r.tsol[i] == st.tsol[i]
    ensures r.tsol[pr.idx1] <= st.tsol[pr.idx1] && r.tsol[pr.idx1] <= pr.tsolV
    ensures r.tsol[pr.idx1] == st.tsol[pr.idx1] || r.tsol[pr.idx1] == pr.tsolV
  {
    var i := pr.idx1;
    var t := if pr.tsolV < st.tsol[i] then pr.tsolV else st.tsol[i];
    ResoState(st.dv[i := NewRow(st.dv[i], st.dv[pr.idx2], pr, cfg, ctx)], st.tsol[i := t])
  }

  /** The pair loop as a left fold of Step over the pairs. */
  function Accumulate(st: ResoState, pairs: seq<PairResult>, cfg: ResoConfig, ctx: PairContext): (r: ResoState)
    requires ContextFits(ctx, |st.dv|) && StateFits(st, |st.dv|) && PairsFit(pairs, |st.dv|)
    ensures StateFits(r, |st.dv|)
    decreases |pairs|
  {
    if |pairs| == 0 then st
    else
      var prev := Accumulate(st, pairs[..|pairs| - 1], cfg, ctx);
      Step(prev, pairs[|pairs| - 1], cfg, ctx)
  }

  /**
   * The pair loop of `resolve`, in place on fresh arrays: `dv` starts at zero and
   * `timesolveV` at `NoConflictTime`, and each pair updates the ownship's entries.
   */
  method ResolvePairs(pairs: seq<PairResult>, cfg: ResoConfig, ctx: PairContext, n: nat)
    returns (dv: array<Vec3>, timesolveV: array<real>)
    requires ContextFits(ctx, n) && PairsFit(pairs, n)
    ensures fresh(dv) && fresh(timesolveV)
    ensures dv[..] == Accumulate(Init(n), pairs, cfg, ctx).dv
    ensures timesolveV[..] == Accumulate(Init(n), pairs, cfg, ctx).tsol
  {
    dv := new Vec3[n](_ => Zero);
    timesolveV := new real[n](_ => NoConflictTime);
    assert ResoState(dv[..], timesolveV[..]) == Init(n);
    var k := 0;
    while k < |pairs|
      invariant 0 <= k <= |pairs|
      invariant dv.Length == n && timesolveV.Length == n
      invariant ResoState(dv[..], timesolveV[..]) == Accumulate(Init(n), pairs[..k], cfg, ctx)
    {
      var pr := pairs[k];
      assert PairFits(pr, n);
      ghost var before := ResoState(dv[..], timesolveV[..]);
      AccumulateLast(Init(n), pairs, k, cfg, ctx);
      StepWrites(before, pr, cfg, ctx);
      var row := NewRow(dv[pr.idx1], dv[pr.idx2], pr, cfg, ctx);
      if pr.tsolV < timesolveV[pr.idx1] {
        timesolveV[pr.idx1] := pr.tsolV;
      }
      dv[pr.idx1] := row;
      k := k + 1;
    }
    assert pairs[..|pairs|] == pairs;
  }

  /** The fold over the first `k + 1` pairs is one more step after the fold over the first `k`. */
  lemma AccumulateLast(st: ResoState, pairs: seq<PairResult>, k: nat, cfg: ResoConfig, ctx: PairContext)
    requires ContextFits(ctx, |st.dv|) && StateFits(st, |st.dv|) && PairsFit(pairs, |st.dv|)
    requires k < |pairs|
    ensures Accumulate(st, pairs[..k + 1], cfg, ctx) ==
      Step(Accumulate(st, pairs[..k], cfg, ctx), pairs[k], cfg, ctx)
  {
    assert pairs[..k + 1][..k] == pairs[..k];
  }

  /** `Step` as the two writes the loop body makes. */
  lemma StepWrites(st: ResoState, pr: PairResult, cfg: ResoConfig, ctx: PairContext)
    requires ContextFits(ctx, |st.dv|) && StateFits(st, |st.dv|) && PairFits(pr, |st.dv|)
    ensures Step(st, pr, cfg, ctx) == ResoState(
      st.dv[pr.idx1 := NewRow(st.dv[pr.idx1], st.dv[pr.idx2], pr, cfg, ctx)],
      st.tsol[pr.idx1 := if pr.tsolV < st.tsol[pr.idx1] then pr.tsolV else st.tsol[pr.idx1]])
  {
  }

  /** The resolution, read into sequences. */
  method ResolveState(pairs: seq<PairResult>, cfg: ResoConfig, ctx: PairContext, n: nat) returns (st: ResoState)
    requires ContextFits(ctx, n) && PairsFit(pairs, n)
    ensures st == Accumulate(Init(n), pairs, cfg, ctx)
  {
    var dv, timesolveV := ResolvePairs(pairs, cfg, ctx, n);
    st := ResoState(dv[..], timesolveV[..]);
  }

  /**
   * For every aircraft the time to solve vertically is at most `NoConflictTime` and at
   * most the time of every pair in which it is the ownship, and equals one of these.
   */
  lemma {:induction false} AccumulateTimeIsMinimum(pairs: seq<PairResult>, cfg: ResoConfig, ctx: PairContext, n: nat, i: nat)
    requires ContextFits(ctx, n) && PairsFit(pairs, n) && i < n
    ensures var t := Accumulate(Init(n), pairs, cfg, ctx).tsol[i];
      t <= NoConflictTime &&
      (forall j :: 0 <= j < |pairs| && pairs[j].idx1 == i ==> t <= pairs[j].tsolV) &&
      (t == NoConflictTime || exists j :: 0 <= j < |pairs| && pairs[j].idx1 == i && t == pairs[j].tsolV)
    decreases |pairs|
  {
    if |pairs| > 0 {
      var front := pairs[..|pairs| - 1];
      AccumulateTimeIsMinimum(front, cfg, ctx, n, i);
      var before := Accumulate(Init(n), front, cfg, ctx).tsol[i];
      var t := Accumulate(Init(n), pairs, cfg, ctx).tsol[i];
      forall j | 0 <= j < |pairs| && pairs[j].idx1 == i
        ensures t <= pairs[j].tsolV
      {
        if j < |pairs| - 1 {
          assert front[j] == pairs[j];
        }
      }
      if t != NoConflictTime {
        if t == before {
          var j :| 0 <= j < |front| && front[j].idx1 == i && before == front[j].tsolV;
          assert pairs[j] == front[j];
        } else {
          assert pairs[|pairs| - 1].idx1 == i;
        }
      }
    }
  }

  /** An aircraft that is the ownship of no pair keeps a zero change and `NoConflictTime`. */
  lemma {:induction false} AccumulateUntouched(pairs: seq<PairResult>, cfg: ResoConfig, ctx: PairContext, n: nat, i: nat)
    requires ContextFits(ctx, n) && PairsFit(pairs, n) && i < n
    requires forall j :: 0 <= j < |pairs| ==> pairs[j].idx1 != i
    ensures Accumulate(Init(n), pairs, cfg, ctx).dv[i] == Zero
    ensures Accumulate(Init(n), pairs, cfg, ctx).tsol[i] == NoConflictTime
    decreases |pairs|
  {
    if |pairs| > 0 {
      var front := pairs[..|pairs| - 1];
      assert forall j :: 0 <= j < |front| ==> front[j] == pairs[j];
      AccumulateUntouched(front, cfg, ctx, n, i);
    }
  }

  /** An aircraft that does not resolve ends with a zero change, whatever its pairs. */
  lemma {:induction false} ResoOffStaysZero(pairs: seq<PairResult>, cfg: ResoConfig, ctx: PairContext, n: nat, i: nat)
    requires ContextFits(ctx, n) && PairsFit(pairs, n) && i < n && ctx.resooff[i]
    ensures Accumulate(Init(n), pairs, cfg, ctx).dv[i] == Zero
    decreases |pairs|
  {
    if |pairs| > 0 {
      ResoOffStaysZero(pairs[..|pairs| - 1], cfg, ctx, n, i);
    }
  }

  /**
   * Without priority rules, a pair whose intruder nobody avoids leaves the ownship's row
   * as it was: the vector taken is added back.
   */
  lemma NoResoNeutralWithoutPrio(st: ResoState, pr: PairResult, cfg: ResoConfig, ctx: PairContext)
    requires ContextFits(ctx, |st.dv|) && StateFits(st, |st.dv|) && PairFits(pr, |st.dv|)
    requires !cfg.swprio && ctx.noreso[pr.idx2] && !ctx.resooff[pr.idx1]
    ensures Step(st, pr, cfg, ctx).dv == st.dv
  {
    var row := st.dv[pr.idx1];
    assert NewRow(row, st.dv[pr.idx2], pr, cfg, ctx) == Add(Sub(row, HalveZ(pr.dvMvp)), HalveZ(pr.dvMvp));
    SubAdd(row, HalveZ(pr.dvMvp));
  }

  /**
   * Without priority rules and with an intruder that is avoided, the ownship takes the
   * pair's vector with its vertical part halved, as in a cooperative resolution.
   */
  lemma CooperativeWithoutPrio(st: ResoState, pr: PairResult, cfg: ResoConfig, ctx: PairContext)
    requires ContextFits(ctx, |st.dv|) && StateFits(st, |st.dv|) && PairFits(pr, |st.dv|)
    requires !cfg.swprio && !ctx.noreso[pr.idx2] && !ctx.resooff[pr.idx1]
    ensures Step(st, pr, cfg, ctx).dv[pr.idx1] ==
      Vec3(st.dv[pr.idx1].x - pr.dvMvp.x, st.dv[pr.idx1].y - pr.dvMvp.y, st.dv[pr.idx1].z - pr.dvMvp.z / 2.0)
  {
  }

  /**
   * Without priority rules, an aircraft that resolves and whose every intruder is one
   * nobody avoids ends with a zero change.
   */
  lemma {:induction false} NoResoIntrudersNeutral(pairs: seq<PairResult>, cfg: ResoConfig, ctx: PairContext, n: nat, i: nat)
    requires ContextFits(ctx, n) && PairsFit(pairs, n) && i < n
    requires !cfg.swprio && !ctx.resooff[i]
    requires forall j :: 0 <= j < |pairs| && pairs[j].idx1 == i ==> ctx.noreso[pairs[j].idx2]
    ensures Accumulate(Init(n), pairs, cfg, ctx).dv[i] == Zero
    decreases |pairs|
  {
    if |pairs| > 0 {
      var front := pairs[..|pairs| - 1];
      assert forall j :: 0 <= j < |front| ==> front[j] == pairs[j];
      NoResoIntrudersNeutral(front, cfg, ctx, n, i);
      var last := pairs[|pairs| - 1];
      if last.idx1 == i {
        NoResoNeutralWithoutPrio(Accumulate(Init(n), front, cfg, ctx), last, cfg, ctx);
      }
    }
  }

  /**
   * With priority rules the add-back is not neutral: under FF2, a cruising ownship facing
   * a maneuvering intruder that nobody avoids is given no share by the priority rules,
   * and the add-back then moves it by the pair's vector towards the intruder.
   */
  lemma NoResoAddBackWithPrio(st: ResoState, pr: PairResult, cfg: ResoConfig, ctx: PairContext)
    requires ContextFits(ctx, |st.dv|) && StateFits(st, |st.dv|) && PairFits(pr, |st.dv|)
    requires cfg.swprio && cfg.priocode == "FF2" && ctx.noreso[pr.idx2] && !ctx.resooff[pr.idx1]
    requires Cruising(ctx.ownVs[pr.idx1]) && Maneuvering(ctx.intrVs[pr.idx2])
    ensures Step(st, pr, cfg, ctx).dv[pr.idx1] == Add(st.dv[pr.idx1], HalveZ(pr.dvMvp))
  {
  }

  /** The aircraft state `resolve` reads to form the commands. */
  datatype Aircraft = Aircraft(
    gseast: real, gsnorth: real, vs: real, trk: real, gs: real,
    alt: real, selalt: real, apvs: real,
    vmin: real, vmax: real, vsmin: real, vsmax: real, dtlook: real)

  /** The commands `resolve` returns for one aircraft. */
  datatype Command = Command(trk: real, gs: real, vs: real, alt: real)

  /** Which directions a resolution may use. */
  datatype Mode = SpeedOnly | HeadingOnly | Horizontal | Vertical | Combined

  /**
   * The mode the switches select: horizontal resolutions take precedence over vertical
   * ones, and with both or neither of speed and heading a horizontal resolution uses both.
   */
  function ModeOf(cfg: ResoConfig): (r: Mode)
    ensures r in {SpeedOnly, HeadingOnly, Horizontal} <==> cfg.swresohoriz
    ensures r == SpeedOnly <==> cfg.swresohoriz && cfg.swresospd && !cfg.swresohdg
    ensures r == HeadingOnly <==> cfg.swresohoriz && cfg.swresohdg && !cfg.swresospd
    ensures r == Horizontal <==> cfg.swresohoriz && cfg.swresospd == cfg.swresohdg
    ensures r == Vertical <==> !cfg.swresohoriz && cfg.swresovert
    ensures r == Combined <==> !cfg.swresohoriz && !cfg.swresovert
  {
    if cfg.swresohoriz then
      if cfg.swresospd && !cfg.swresohdg then SpeedOnly
      else if cfg.swresohdg && !cfg.swresospd then HeadingOnly
      else Horizontal
    else if cfg.swresovert then Vertical
    else Combined
  }

  /** `np.maximum(lo, np.minimum(hi, x))`. */
  function Cap(lo: real, hi: real, x: real): (r: real)
    ensures r >= lo
    ensures lo <= hi ==> r <= hi
    ensures lo <= x <= hi ==> r == x
    ensures x < lo ==> r == lo
    ensures lo <= hi && x > hi ==> r == hi
  {
    Max(lo, Min(hi, x))
  }

  /** The track of a velocity, in degrees within `[0, 360)`. */
  function TrackOf(east: real, north: real, m: Math): (r: real)
    ensures 0.0 <= r < 360.0
  {
    FloorMod(m.atan2Deg(east, north), 360.0)
  }

  /**
   * The unrestricted new heading, speed and vertical speed: the old velocity plus the
   * change, in the directions the mode allows, before capping.
   */
  datatype Polar = Polar(trk: real, gs: real, vs: real)

  function NewPolar(ac: Aircraft, dv: Vec3, mode: Mode, m: Math): (r: Polar)
    ensures mode == SpeedOnly ==> r.trk == ac.trk
    ensures mode == HeadingOnly || mode == Vertical ==> r.gs == ac.gs
    ensures mode == Vertical ==> r.trk == ac.trk
    ensures mode in {SpeedOnly, HeadingOnly, Horizontal} ==> r.vs == ac.vs
    ensures mode in {Vertical, Combined} ==> r.vs == ac.vs + dv.z
    ensures mode in {HeadingOnly, Horizontal, Combined} ==> 0.0 <= r.trk < 360.0
  {
    var nx, ny, nz := ac.gseast + dv.x, ac.gsnorth + dv.y, ac.vs + dv.z;
    var trk := TrackOf(nx, ny, m);
    var gs := m.sqrt(nx * nx + ny * ny);
    match mode
    case SpeedOnly => Polar(ac.trk, gs, ac.vs)
    case HeadingOnly => Polar(trk, ac.gs, ac.vs)
    case Horizontal => Polar(trk, gs, ac.vs)
    case Vertical => Polar(ac.trk, ac.gs, nz)
    case Combined => Polar(trk, gs, nz)
  }

  /**
   * The altitude to hold: the altitude the capped vertical speed reaches in the time to
   * solve when the capped vertical speed, taken relative to the autopilot's vertical
   * speed towards the selected altitude, is zero or points the same way as that
   * altitude lies from the selected one, and otherwise the selected altitude; but
   * always the former for an aircraft in conflict within the look-ahead with a vertical
   * resolution, and always the selected altitude when resolutions are horizontal.
   */
  function AsasAlt(ac: Aircraft, dvz: real, tsol: real, vscapped: real, horizontal: bool): (r: real)
    ensures horizontal ==> r == ac.selalt
    ensures !horizontal && tsol < ac.dtlook && Abs(dvz) > 0.0 ==> r == vscapped * tsol + ac.alt
    ensures r == ac.selalt || r == vscapped * tsol + ac.alt
    ensures !horizontal && !(tsol < ac.dtlook && Abs(dvz) > 0.0) ==>
      var signdvs := Sign(vscapped - ac.apvs * Sign(ac.selalt - ac.alt));
      (signdvs == 0.0 || signdvs == Sign(vscapped * tsol + ac.alt - ac.selalt) ==> r == vscapped * tsol + ac.alt)
    ensures !horizontal && !(tsol < ac.dtlook && Abs(dvz) > 0.0) ==>
      var signdvs := Sign(vscapped - ac.apvs * Sign(ac.selalt - ac.alt));
      (signdvs != 0.0 && signdvs != Sign(vscapped * tsol + ac.alt - ac.selalt) ==> r == ac.selalt)
  {
    var temp := vscapped * tsol + ac.alt;
    var signdvs := Sign(vscapped - ac.apvs * Sign(ac.selalt - ac.alt));
    var signalt := Sign(temp - ac.selalt);
    var alt := if signdvs == 0.0 || signdvs == signalt then temp else ac.selalt;
    var alt2 := if tsol < ac.dtlook && Abs(dvz) > 0.0 then temp else alt;
    if horizontal then ac.selalt else alt2
  }

  /**
   * The commands for one aircraft: speeds capped to the envelope, the track and speed not
   * touched in the directions the mode excludes, and the altitude from AsasAlt.
   */
  function Finalize(ac: Aircraft, dv: Vec3, tsol: real, cfg: ResoConfig, m: Math): (c: Command)
    ensures c.gs >= ac.vmin && (ac.vmin <= ac.vmax ==> c.gs <= ac.vmax)
    ensures c.vs >= ac.vsmin && (ac.vsmin <= ac.vsmax ==> c.vs <= ac.vsmax)
    ensures ModeOf(cfg) == SpeedOnly || ModeOf(cfg) == Vertical ==> c.trk == ac.trk
    ensures ModeOf(cfg) == HeadingOnly || ModeOf(cfg) == Vertical ==> c.gs == Cap(ac.vmin, ac.vmax, ac.gs)
    ensures cfg.swresohoriz ==> c.vs == Cap(ac.vsmin, ac.vsmax, ac.vs) && c.alt == ac.selalt
    ensures !cfg.swresohoriz ==> c.vs == Cap(ac.vsmin, ac.vsmax, ac.vs + dv.z)
    ensures ModeOf(cfg) in {HeadingOnly, Horizontal, Combined} ==> 0.0 <= c.trk < 360.0
  {
    var mode := ModeOf(cfg);
    var p := NewPolar(ac, dv, mode, m);
    var gsCapped := Cap(ac.vmin, ac.vmax, p.gs);
    var vsCapped := Cap(ac.vsmin, ac.vsmax, p.vs);
    Command(p.trk, gsCapped, vsCapped, AsasAlt(ac, dv.z, tsol, vsCapped, cfg.swresohoriz))
  }

  /** The commands of every aircraft from the pair resolutions. */
  method Resolve(pairs: seq<PairResult>, fleet: seq<Aircraft>, intrVs: seq<real>,
                 noreso: seq<bool>, resooff: seq<bool>, cfg: ResoConfig, m: Math)
    returns (cmds: seq<Command>)
    requires |intrVs| == |fleet| && |noreso| == |fleet| && |resooff| == |fleet|
    requires PairsFit(pairs, |fleet|)
    ensures var ctx := PairContext(seq(|fleet|, i requires 0 <= i < |fleet| => fleet[i].vs), intrVs, noreso, resooff);
      var st := Accumulate(Init(|fleet|), pairs, cfg, ctx);
      |cmds| == |fleet| &&
      forall i :: 0 <= i < |fleet| ==> cmds[i] == Finalize(fleet[i], st.dv[i], st.tsol[i], cfg, m)
  {
    var n := |fleet|;
    var ctx := PairContext(seq(n, i requires 0 <= i < n => fleet[i].vs), intrVs, noreso, resooff);
    var st := ResolveState(pairs, cfg, ctx, n);
    cmds := seq(n, i requires 0 <= i < n => Finalize(fleet[i], st.dv[i], st.tsol[i], cfg, m));
  }
}
