/** The LED lab's electron markers. Each of 120 markers has a progress in
    [0, 1) along the circuit and a fixed-length trail of its last positions,
    oldest first. The circuit curve itself is left uninterpreted: it is the
    parameter `pathAt`, mapping a progress to a point. */
module ElectronField {

  datatype Point = Point(x: real, y: real, z: real)

  datatype Electron = Electron(progress: real, position: Point, trail: seq<Point>, visible: bool)

  const ElectronCount: nat := 120
  const TrailLength: nat := 15
  const Spacing: real := 1.0 / 120.0
  const BaseSpeed: real := 0.0003
  /** Markers are drawn this far above the wire. */
  const HeightOffset: real := 0.15

  /** y is a whole number. */
  predicate IsWhole(y: real) {
    y == y.Floor as real
  }

  /** JavaScript's `x % 1`: x minus its integer part, truncated toward zero,
      so the result keeps the sign of x. */
  function JsMod1(x: real): (r: real)
    ensures x >= 0.0 ==> 0.0 <= r < 1.0
    ensures x < 0.0 ==> -1.0 < r <= 0.0
    ensures IsWhole(x - r)
  {
    if x >= 0.0 then
      var k := x.Floor;
      assert k as real <= x < k as real + 1.0;
      assert IsWhole(k as real);
      x - k as real
    else
      var k := (-x).Floor;
      assert k as real <= -x < k as real + 1.0;
      assert IsWhole(-(k as real)) by {
        assert -(k as real) == (-k) as real;
      }
      x + k as real
  }

  ghost predicate WellFormed(e: Electron) {
    0.0 <= e.progress < 1.0 && |e.trail| == TrailLength
  }

  /** Marker i starts at progress i/120 with its trail filled with copies of
      its starting point. */
  function Spawn(i: nat, pathAt: real -> Point): (e: Electron)
    requires i < ElectronCount
    ensures e.progress == i as real / 120.0
    ensures WellFormed(e)
    ensures e.position == pathAt(e.progress)
    ensures forall k :: 0 <= k < |e.trail| ==> e.trail[k] == e.position
  {
    var p := i as real * Spacing;
    var pos := pathAt(p);
    Electron(p, pos, seq(TrailLength, _ => pos), true)
  }

  /** The freshly built field of markers. */
  function InitElectrons(pathAt: real -> Point): (es: seq<Electron>)
    ensures |es| == ElectronCount
    ensures forall i :: 0 <= i < |es| ==> es[i] == Spawn(i, pathAt)
  {
    seq(ElectronCount, i requires 0 <= i < ElectronCount => Spawn(i, pathAt))
  }

  /** Drop the oldest trail point, append the newest. */
  function PushTrail(trail: seq<Point>, p: Point): (r: seq<Point>)
    ensures |trail| > 0 ==> |r| == |trail|
    ensures |r| > 0 && r[|r| - 1] == p
    ensures |trail| > 0 ==> r[..|r| - 1] == trail[1..]
  {
    if |trail| == 0 then [p] else trail[1..] + [p]
  }

  /** One frame of a shown marker at voltage v: progress advances by
      (v * 0.0003) * (v / 3), wrapped into [0, 1). */
  function Advance(e: Electron, v: real, pathAt: real -> Point): (r: Electron)
    ensures r.visible
    ensures r.trail == PushTrail(e.trail, r.position)
  {
    var speed := v * BaseSpeed;
    var p := JsMod1(e.progress + speed * (v / 3.0));
    var q := pathAt(p);
    var pos := q.(z := q.z + HeightOffset);
    Electron(p, pos, PushTrail(e.trail, pos), true)
  }

  /** A shown marker's step keeps it well formed and moves its progress by
      v * v / 10000 modulo 1; the new position sits HeightOffset above the
      curve point. */
  lemma AdvanceStep(e: Electron, v: real, pathAt: real -> Point)
    requires WellFormed(e)
    requires v > 0.0
    ensures WellFormed(Advance(e, v, pathAt))
    ensures IsWhole((e.progress + v * v / 10000.0) - Advance(e, v, pathAt).progress)
    ensures Advance(e, v, pathAt).position.z ==
              pathAt(Advance(e, v, pathAt).progress).z + HeightOffset
  {
    var x := e.progress + (v * BaseSpeed) * (v / 3.0);
    assert (v * BaseSpeed) * (v / 3.0) == v * v / 10000.0;
    assert x == e.progress + v * v / 10000.0;
    assert Advance(e, v, pathAt).progress == JsMod1(x);
  }

  /** One animation frame over the whole field. When stopped or at 0 V or
      below, every marker is hidden and nothing else changes; otherwise every
      marker is shown and advanced. */
  function UpdateElectrons(es: seq<Electron>, running: bool, v: real,
                           pathAt: real -> Point): (r: seq<Electron>)
    ensures |r| == |es|
    ensures forall i :: 0 <= i < |r| ==> r[i].visible == (running && v > 0.0)
    ensures !(running && v > 0.0) ==>
              forall i :: 0 <= i < |r| ==> r[i].(visible := es[i].visible) == es[i]
    ensures running && v > 0.0 ==>
              forall i :: 0 <= i < |r| ==> r[i] == Advance(es[i], v, pathAt)
  {
    if !running || v <= 0.0 then seq(|es|, i requires 0 <= i < |es| => es[i].(visible := false))
    else seq(|es|, i requires 0 <= i < |es| => Advance(es[i], v, pathAt))
  }

  /** Every marker stays well formed: progress in [0, 1), exactly fifteen
      trail points, and after a shown frame the newest point last. */
  lemma UpdateKeepsWellFormed(es: seq<Electron>, running: bool, v: real, pathAt: real -> Point)
    requires forall i :: 0 <= i < |es| ==> WellFormed(es[i])
    ensures forall i :: 0 <= i < |es| ==> WellFormed(UpdateElectrons(es, running, v, pathAt)[i])
    ensures running && v > 0.0 ==>
              forall i :: 0 <= i < |es| ==>
                var e := UpdateElectrons(es, running, v, pathAt)[i];
                |e.trail| == TrailLength && e.trail[TrailLength - 1] == e.position && e.trail[..TrailLength - 1] == es[i].trail[1..]
  {
    var r := UpdateElectrons(es, running, v, pathAt);
    if running && v > 0.0 {
      forall i | 0 <= i < |es|
        ensures WellFormed(r[i])
      {
        AdvanceStep(es[i], v, pathAt);
      }
    }
  }
}
